/** Shadow eviction: bounded candidates with an exact share of the schema budget, against the aggregate simulation. */
module Eviction {
  import opened Base
  import opened Sorting
  import opened Lineages

  // ----- Policies -----

  /** The eligibility rules by policy name. */
  predicate Applies(policy: string, age: int, tokens: int) {
    if policy == "E1" then age >= 1
    else if policy == "E2" then age >= 2
    else if policy == "E3" then age >= 3
    else if policy == "E4" then age >= 2 && tokens >= 512
    else if policy == "E5" then age >= 2 && tokens >= 2048
    else false
  }

  function Age(l: Lifetime, occurrence: Row): int {
    occurrence.request - l.lineage.first
  }

  function Session(l: Lifetime): string {
    l.lineage.key.1
  }

  /** What the estimates and the two templates weigh. */
  datatype Overheads = Overheads(stubTokens: nat, schemaTokens: nat)

  // ----- Pending occurrences -----

  datatype Item = Item(policy: string, lifetime: Lifetime, occurrence: Row)

  /** The occurrences of one lineage a policy selects. */
  function PendingIn(policy: string, l: Lifetime, occurrences: seq<Row>): seq<Item> {
    if occurrences == [] then []
    else
      (if Age(l, occurrences[0]) > 0 && Applies(policy, Age(l, occurrences[0]), l.tokens)
       then [Item(policy, l, occurrences[0])] else [])
      + PendingIn(policy, l, occurrences[1..])
  }

  function PendingFor(policy: string, lifetimes: seq<Lifetime>): seq<Item> {
    if lifetimes == [] then []
    else PendingIn(policy, lifetimes[0], lifetimes[0].lineage.occurrences) + PendingFor(policy, lifetimes[1..])
  }

  function PendingAll(policies: seq<string>, lifetimes: seq<Lifetime>): seq<Item> {
    if policies == [] then [] else PendingFor(policies[0], lifetimes) + PendingAll(policies[1..], lifetimes)
  }

  function Digits(n: nat): string {
    if n < 10 then [("0123456789")[n]] else Digits(n / 10) + [("0123456789")[n % 10]]
  }

  /** `f"L{n:06d}"`. */
  function LineageId(n: nat): string {
    "L" + (if |Digits(n)| < 6 then seq(6 - |Digits(n)|, _ => '0') else "") + Digits(n)
  }

  function ItemKey(item: Item): SortKey {
    [Str(item.policy), Str(LineageId(item.lifetime.number)), Num(item.occurrence.request), Num(item.occurrence.ordinal)]
  }

  // ----- Sums over the items of one policy -----

  /** The sum of a weight over the items of one policy. */
  function Tally(items: seq<Item>, policy: string, weight: Item -> int): int {
    if items == [] then 0
    else (if items[0].policy == policy then weight(items[0]) else 0) + Tally(items[1..], policy, weight)
  }

  function One(item: Item): int {
    1
  }

  function Gross(item: Item): int {
    item.occurrence.tokens
  }

  lemma {:induction false} TallyAppend(a: seq<Item>, b: seq<Item>, policy: string, weight: Item -> int)
    ensures Tally(a + b, policy, weight) == Tally(a, policy, weight) + Tally(b, policy, weight)
  {
    if a == [] {
      assert a + b == b;
    } else {
      assert (a + b)[1..] == a[1..] + b;
      TallyAppend(a[1..], b, policy, weight);
    }
  }

  lemma {:induction false} TallyInsert(x: Item, s: seq<Item>, policy: string, weight: Item -> int)
    ensures Tally(InsertOn(x, s, ItemKey), policy, weight)
            == (if x.policy == policy then weight(x) else 0) + Tally(s, policy, weight)
  {
    hide NotAfter;
    if s == [] || NotAfter(x, s[0], ItemKey) {
      assert ([x] + s)[1..] == s;
    } else {
      TallyInsert(x, s[1..], policy, weight);
      var rest := InsertOn(x, s[1..], ItemKey);
      assert ([s[0]] + rest)[1..] == rest;
    }
  }

  /** Sorting changes no sum. */
  lemma {:induction false} TallySort(s: seq<Item>, policy: string, weight: Item -> int)
    ensures Tally(SortOn(s, ItemKey), policy, weight) == Tally(s, policy, weight)
  {
    hide InsertOn;
    if s != [] {
      TallySort(s[1..], policy, weight);
      TallyInsert(s[0], SortOn(s[1..], ItemKey), policy, weight);
    }
  }

  lemma {:induction false} CountNonNegative(items: seq<Item>, policy: string)
    ensures Tally(items, policy, One) >= 0
    ensures Tally(items, policy, One) == 0 <==> forall x :: x in items ==> x.policy != policy
  {
    if items != [] {
      CountNonNegative(items[1..], policy);
      assert items == [items[0]] + items[1..];
    }
  }

  function Count(items: seq<Item>, policy: string): nat {
    CountNonNegative(items, policy);
    Tally(items, policy, One)
  }

  // ----- Apportioning -----

  /** The share of the candidate at `position` among `n`. */
  function Share(budget: nat, n: nat, position: nat): nat
    requires n > 0
  {
    budget / n + if position < budget % n then 1 else 0
  }

  function Shares(budget: nat, n: nat, upTo: nat): nat
    requires n > 0
  {
    if upTo == 0 then 0 else Shares(budget, n, upTo - 1) + Share(budget, n, upTo - 1)
  }

  lemma {:induction false} SharesSoFar(budget: nat, n: nat, upTo: nat)
    requires n > 0 && upTo <= n
    ensures Shares(budget, n, upTo)
            == Times(upTo, budget / n) + if upTo < budget % n then upTo else budget % n
  {
    hide Times;
    if upTo > 0 {
      SharesSoFar(budget, n, upTo - 1);
      TimesStep(upTo - 1, upTo, budget / n);
    } else {
      TimesStep(0, 0, budget / n);
    }
  }

  /** The shares of all candidates are exactly the budget, and any two differ by at most one. */
  lemma SharesExact(budget: nat, n: nat)
    requires n > 0
    ensures Shares(budget, n, n) == budget
    ensures forall i: nat, j: nat :: Share(budget, n, i) <= Share(budget, n, j) + 1
  {
    SharesSoFar(budget, n, n);
    assert n * (budget / n) + budget % n == budget;
  }

  // ----- Candidates -----

  datatype Candidate = Candidate(item: Item, stub: nat, share: nat, net: int)

  function Sessions(items: seq<Item>, policy: string): set<string> {
    set x | x in items && x.policy == policy :: Session(x.lifetime)
  }

  function Snapshots(rows: seq<Row>, sessions: set<string>): set<string> {
    set r | r in rows && r.session in sessions :: r.snapshot
  }

  /** The schema once per provider request of an affected session. */
  function Budget(rows: seq<Row>, items: seq<Item>, policy: string, o: Overheads): nat {
    Times(o.schemaTokens, |Snapshots(rows, Sessions(items, policy))|)
  }

  /** The candidate of one item: its share by its position among those of its policy. */
  function CandidateAt(rows: seq<Row>, items: seq<Item>, i: nat, o: Overheads): Candidate
    requires i < |items|
  {
    var item := items[i];
    var n := Count(items, item.policy);
    CountNonNegative(items, item.policy);
    assert item in items;
    var share := Share(Budget(rows, items, item.policy, o), n, Count(items[..i], item.policy));
    Candidate(item, o.stubTokens, share, Gross(item) - o.stubTokens - share)
  }

  function CandidatesOf(rows: seq<Row>, items: seq<Item>, o: Overheads): (r: seq<Candidate>)
    ensures |r| == |items|
  {
    seq(|items|, i requires 0 <= i < |items| => CandidateAt(rows, items, i, o))
  }

  /** Sums of a policy's candidates, as the summary takes them. */
  function ShareSum(candidates: seq<Candidate>, policy: string): int {
    if candidates == [] then 0
    else
      var last := candidates[|candidates| - 1];
      ShareSum(candidates[..|candidates| - 1], policy) + if last.item.policy == policy then last.share else 0
  }

  function NetSum(candidates: seq<Candidate>, policy: string): int {
    if candidates == [] then 0
    else
      var last := candidates[|candidates| - 1];
      NetSum(candidates[..|candidates| - 1], policy) + if last.item.policy == policy then last.net else 0
  }

  lemma CountStep(items: seq<Item>, i: nat, policy: string)
    requires i < |items|
    ensures Count(items[..i + 1], policy) == Count(items[..i], policy) + if items[i].policy == policy then 1 else 0
    ensures Tally(items[..i + 1], policy, Gross)
            == Tally(items[..i], policy, Gross) + if items[i].policy == policy then Gross(items[i]) else 0
  {
    hide Gross;
    assert items[..i + 1] == items[..i] + [items[i]];
    TallyAppend(items[..i], [items[i]], policy, One);
    TallyAppend(items[..i], [items[i]], policy, Gross);
    TallyOne(items[i], policy, One);
    TallyOne(items[i], policy, Gross);
  }

  lemma TallyOne(x: Item, policy: string, weight: Item -> int)
    ensures Tally([x], policy, weight) == if x.policy == policy then weight(x) else 0
  {
    assert [x][1..] == [];
  }

  /** After `k` candidates a policy has handed out the first shares of its budget. */
  lemma {:induction false} SumsSoFar(rows: seq<Row>, items: seq<Item>, k: nat, policy: string, o: Overheads)
    requires k <= |items| && Count(items, policy) > 0
    ensures var done := CandidatesOf(rows, items, o)[..k];
            var c := Count(items[..k], policy);
            && ShareSum(done, policy) == Shares(Budget(rows, items, policy, o), Count(items, policy), c)
            && NetSum(done, policy)
               == Tally(items[..k], policy, Gross) - Times(c, o.stubTokens) - ShareSum(done, policy)
  {
    hide Budget, Share, Gross, Times, Count;
    var all := CandidatesOf(rows, items, o);
    if k == 0 {
      assert items[..0] == [] && all[..0] == [];
      NoItems(policy);
      TimesStep(0, 0, o.stubTokens);
    } else {
      SumsSoFar(rows, items, k - 1, policy, o);
      CountStep(items, k - 1, policy);
      assert all[..k][..k - 1] == all[..k - 1] && all[..k][k - 1] == CandidateAt(rows, items, k - 1, o);
      TimesStep(Count(items[..k - 1], policy), 0, o.stubTokens);
    }
  }

  lemma NoItems(policy: string)
    ensures Count([], policy) == 0 && Tally([], policy, Gross) == 0
  {
  }

  /** Per policy the shares add up to its budget, and the net figures to gross less stubs less budget. */
  lemma ApportionedExactly(rows: seq<Row>, items: seq<Item>, policy: string, o: Overheads)
    ensures var all := CandidatesOf(rows, items, o);
            && ShareSum(all, policy) == Budget(rows, items, policy, o)
            && NetSum(all, policy)
               == Tally(items, policy, Gross) - Times(Count(items, policy), o.stubTokens)
                  - Budget(rows, items, policy, o)
  {
    hide Times, Gross, CandidateAt, Share;
    var all := CandidatesOf(rows, items, o);
    assert items[..|items|] == items && all[..|items|] == all;
    if Count(items, policy) > 0 {
      SumsSoFar(rows, items, |items|, policy, o);
      SharesExact(Budget(rows, items, policy, o), Count(items, policy));
    } else {
      CountNonNegative(items, policy);
      forall i | 0 <= i < |all| ensures all[i].item.policy != policy {
        CandidateItem(rows, items, i, o);
      }
      NothingOf(all, policy);
      NoTokens(items, policy);
      assert Sessions(items, policy) == {};
      assert Snapshots(rows, {}) == {};
      TimesZero(o.schemaTokens);
      TimesStep(0, 0, o.stubTokens);
    }
  }

  lemma CandidateItem(rows: seq<Row>, items: seq<Item>, i: nat, o: Overheads)
    requires i < |items|
    ensures CandidateAt(rows, items, i, o).item == items[i] && items[i] in items
  {
  }

  lemma TimesZero(n: nat)
    ensures Times(n, 0) == 0
  {
  }

  lemma {:induction false} NothingOf(candidates: seq<Candidate>, policy: string)
    requires forall i :: 0 <= i < |candidates| ==> candidates[i].item.policy != policy
    ensures ShareSum(candidates, policy) == 0 && NetSum(candidates, policy) == 0
  {
    if candidates != [] {
      NothingOf(candidates[..|candidates| - 1], policy);
    }
  }

  lemma {:induction false} NoTokens(items: seq<Item>, policy: string)
    requires forall x :: x in items ==> x.policy != policy
    ensures Tally(items, policy, Gross) == 0
  {
    if items != [] {
      assert items[0] in items;
      NoTokens(items[1..], policy);
    }
  }

  // ----- The aggregate simulation -----

  type Exposed = (Lifetime, Row)

  function HistoricalIn(l: Lifetime, occurrences: seq<Row>): seq<Exposed> {
    if occurrences == [] then []
    else (if occurrences[0].request > l.lineage.first then [(l, occurrences[0])] else []) + HistoricalIn(l, occurrences[1..])
  }

  /** Occurrences after the founding request. */
  function Historical(lifetimes: seq<Lifetime>): seq<Exposed> {
    if lifetimes == [] then []
    else HistoricalIn(lifetimes[0], lifetimes[0].lineage.occurrences) + Historical(lifetimes[1..])
  }

  function Selected(policy: string, exposed: seq<Exposed>): seq<Exposed> {
    if exposed == [] then []
    else
      (if Applies(policy, Age(exposed[0].0, exposed[0].1), exposed[0].0.tokens) then [exposed[0]] else [])
      + Selected(policy, exposed[1..])
  }

  function TokensOf(exposed: seq<Exposed>): int {
    if exposed == [] then 0 else exposed[0].1.tokens + TokensOf(exposed[1..])
  }

  function SessionsOf(exposed: seq<Exposed>): set<string> {
    set x | x in exposed :: Session(x.0)
  }

  datatype Simulation = Simulation(gross: int, stubs: nat, overhead: nat)

  function Simulated(policy: string, rows: seq<Row>, lifetimes: seq<Lifetime>, o: Overheads): Simulation {
    var selected := Selected(policy, Historical(lifetimes));
    Simulation(
      TokensOf(selected),
      Times(|selected|, o.stubTokens),
      Times(o.schemaTokens, |Snapshots(rows, SessionsOf(selected))|))
  }

  function SimulatedNet(s: Simulation): int {
    s.gross - s.stubs - s.overhead
  }

  function AsItems(policy: string, exposed: seq<Exposed>): (r: seq<Item>)
    ensures |r| == |exposed|
    ensures forall i :: 0 <= i < |exposed| ==> r[i] == Item(policy, exposed[i].0, exposed[i].1)
  {
    seq(|exposed|, i requires 0 <= i < |exposed| => Item(policy, exposed[i].0, exposed[i].1))
  }

  lemma {:induction false} SelectedAppend(policy: string, a: seq<Exposed>, b: seq<Exposed>)
    ensures Selected(policy, a + b) == Selected(policy, a) + Selected(policy, b)
  {
    hide Applies;
    if a == [] {
      assert a + b == b;
    } else {
      assert (a + b)[1..] == a[1..] + b;
      SelectedAppend(policy, a[1..], b);
    }
  }

  lemma {:induction false} SelectedIn(policy: string, l: Lifetime, occurrences: seq<Row>)
    ensures PendingIn(policy, l, occurrences) == AsItems(policy, Selected(policy, HistoricalIn(l, occurrences)))
  {
    hide Applies;
    if occurrences != [] {
      SelectedIn(policy, l, occurrences[1..]);
      var rest := HistoricalIn(l, occurrences[1..]);
      if occurrences[0].request > l.lineage.first {
        assert ([(l, occurrences[0])] + rest)[1..] == rest;
      } else {
        assert [] + rest == rest;
      }
    }
  }

  /** The bounded evaluator and the aggregate simulation select the same occurrences. */
  lemma {:induction false} SelectedIsPending(policy: string, lifetimes: seq<Lifetime>)
    ensures PendingFor(policy, lifetimes) == AsItems(policy, Selected(policy, Historical(lifetimes)))
  {
    hide Selected, PendingIn, HistoricalIn;
    if lifetimes == [] {
      assert Selected(policy, []) == [] by {
        SelectedNone(policy);
      }
    } else {
      var here, rest := HistoricalIn(lifetimes[0], lifetimes[0].lineage.occurrences), Historical(lifetimes[1..]);
      SelectedIn(policy, lifetimes[0], lifetimes[0].lineage.occurrences);
      SelectedIsPending(policy, lifetimes[1..]);
      SelectedAppend(policy, here, rest);
    }
  }

  lemma SelectedNone(policy: string)
    ensures Selected(policy, []) == []
  {
  }

  lemma {:induction false} ItemTotals(policy: string, exposed: seq<Exposed>)
    ensures Tally(AsItems(policy, exposed), policy, Gross) == TokensOf(exposed)
    ensures Tally(AsItems(policy, exposed), policy, One) == |exposed|
    ensures Sessions(AsItems(policy, exposed), policy) == SessionsOf(exposed)
  {
    var items := AsItems(policy, exposed);
    if exposed != [] {
      ItemTotals(policy, exposed[1..]);
      assert items[1..] == AsItems(policy, exposed[1..]);
    }
    forall x | x in SessionsOf(exposed) ensures x in Sessions(items, policy) {
      var i :| 0 <= i < |exposed| && Session(exposed[i].0) == x;
      assert items[i] in items;
    }
    forall x | x in Sessions(items, policy) ensures x in SessionsOf(exposed) {
      var i :| 0 <= i < |items| && Session(items[i].lifetime) == x;
      assert exposed[i] in exposed;
    }
  }

  // ----- A policy listed more than once -----

  function Multiplicity(policies: seq<string>, policy: string): nat {
    if policies == [] then 0 else (if policies[0] == policy then 1 else 0) + Multiplicity(policies[1..], policy)
  }

  function Repeated(m: nat, x: int): int {
    if m == 0 then 0 else x + Repeated(m - 1, x)
  }

  lemma {:induction false} RepeatedOnce(m: nat, x: int)
    ensures x >= 0 ==> Repeated(m, x) >= 0
    ensures x <= 0 ==> Repeated(m, x) <= 0
    ensures m > 0 ==> (Repeated(m, x) == x <==> m == 1 || x == 0)
    ensures m > 0 && x != 0 ==> Repeated(m, x) != 0
  {
    if m > 0 {
      RepeatedOnce(m - 1, x);
    }
  }

  lemma {:induction false} RepeatedDifference(m: nat, x: int, y: int)
    ensures Repeated(m, x - y) == Repeated(m, x) - Repeated(m, y)
  {
    if m > 0 {
      RepeatedDifference(m - 1, x, y);
    }
  }

  lemma {:induction false} RepeatedTimes(m: nat, n: nat, k: nat)
    ensures Repeated(m, n) >= 0 && Times(Repeated(m, n), k) == Repeated(m, Times(n, k))
  {
    if m > 0 {
      RepeatedTimes(m - 1, n, k);
      assert (n + Repeated(m - 1, n)) * k == n * k + Repeated(m - 1, n) * k;
    }
  }

  lemma {:induction false} PendingForPolicy(policy: string, lifetimes: seq<Lifetime>)
    ensures forall x :: x in PendingFor(policy, lifetimes) ==> x.policy == policy
  {
    SelectedIsPending(policy, lifetimes);
  }

  lemma {:induction false} TallyOther(items: seq<Item>, policy: string, weight: Item -> int)
    requires forall x :: x in items ==> x.policy != policy
    ensures Tally(items, policy, weight) == 0
  {
    if items != [] {
      assert items[0] in items;
      TallyOther(items[1..], policy, weight);
    }
  }

  lemma {:induction false} TallyPending(policies: seq<string>, lifetimes: seq<Lifetime>, policy: string,
                                        weight: Item -> int)
    ensures Tally(PendingAll(policies, lifetimes), policy, weight)
            == Repeated(Multiplicity(policies, policy), Tally(PendingFor(policy, lifetimes), policy, weight))
  {
    hide PendingFor, Tally;
    if policies == [] {
      TallyOther([], policy, weight);
    } else {
      TallyPending(policies[1..], lifetimes, policy, weight);
      TallyAppend(PendingFor(policies[0], lifetimes), PendingAll(policies[1..], lifetimes), policy, weight);
      PendingForPolicy(policies[0], lifetimes);
      if policies[0] != policy {
        TallyOther(PendingFor(policies[0], lifetimes), policy, weight);
      }
    }
  }

  lemma {:induction false} PendingMembers(policies: seq<string>, lifetimes: seq<Lifetime>, policy: string, x: Item)
    requires policy in policies && x.policy == policy
    ensures x in PendingAll(policies, lifetimes) <==> x in PendingFor(policy, lifetimes)
  {
    hide PendingFor;
    PendingForPolicy(policies[0], lifetimes);
    if policy in policies[1..] {
      PendingMembers(policies[1..], lifetimes, policy, x);
    } else {
      PendingOthers(policies[1..], lifetimes, policy);
    }
  }

  lemma {:induction false} PendingOthers(policies: seq<string>, lifetimes: seq<Lifetime>, policy: string)
    requires policy !in policies
    ensures forall x :: x in PendingAll(policies, lifetimes) ==> x.policy != policy
  {
    hide PendingFor;
    if policies != [] {
      PendingForPolicy(policies[0], lifetimes);
      PendingOthers(policies[1..], lifetimes, policy);
    }
  }

  lemma SameSessions(policies: seq<string>, lifetimes: seq<Lifetime>, policy: string)
    requires policy in policies
    ensures Sessions(SortOn(PendingAll(policies, lifetimes), ItemKey), policy)
            == Sessions(PendingFor(policy, lifetimes), policy)
  {
    hide PendingAll, PendingFor, SortOn, Session;
    var all := PendingAll(policies, lifetimes);
    var items := SortOn(all, ItemKey);
    SortOnSorted(all, ItemKey);
    forall x: Item | x.policy == policy
      ensures x in items <==> x in PendingFor(policy, lifetimes)
    {
      PendingMembers(policies, lifetimes, policy, x);
      assert x in multiset(items) <==> x in multiset(all);
    }
  }

  /**
    Without truncation the net figures of a policy's candidates are the simulation's gross less stubs, once per time
    the policy is listed, less one schema overhead; so they add up to the simulation's net figure exactly when the
    policy is listed once, or its gross reduction only pays for its stubs.
   */
  lemma NetExactly(policies: seq<string>, rows: seq<Row>, lifetimes: seq<Lifetime>, policy: string, o: Overheads)
    requires policy in policies
    ensures var items := SortOn(PendingAll(policies, lifetimes), ItemKey);
            var net := NetSum(CandidatesOf(rows, items, o), policy);
            var s := Simulated(policy, rows, lifetimes, o);
            var m := Multiplicity(policies, policy);
            && m > 0
            && net == Repeated(m, s.gross - s.stubs) - s.overhead
            && ShareSum(CandidatesOf(rows, items, o), policy) == s.overhead
            && (net == SimulatedNet(s) <==> m == 1 || s.gross == s.stubs)
  {
    hide SortOn, PendingAll, PendingFor, Times, Tally, Sessions, Selected, Historical, CandidatesOf, Gross, One,
         Snapshots, TokensOf, SessionsOf, ItemKey;
    var all := PendingAll(policies, lifetimes);
    var items := SortOn(all, ItemKey);
    var selected := Selected(policy, Historical(lifetimes));
    var m := Multiplicity(policies, policy);
    Listed(policies, policy);
    ApportionedExactly(rows, items, policy, o);
    TallySort(all, policy, Gross);
    TallySort(all, policy, One);
    TallyPending(policies, lifetimes, policy, Gross);
    TallyPending(policies, lifetimes, policy, One);
    SelectedIsPending(policy, lifetimes);
    ItemTotals(policy, selected);
    SameSessions(policies, lifetimes, policy);
    RepeatedTimes(m, |selected|, o.stubTokens);
    RepeatedDifference(m, TokensOf(selected), Times(|selected|, o.stubTokens));
    RepeatedOnce(m, TokensOf(selected) - Times(|selected|, o.stubTokens));
  }

  lemma {:induction false} Listed(policies: seq<string>, policy: string)
    ensures policy in policies <==> Multiplicity(policies, policy) > 0
  {
    if policies != [] {
      Listed(policies[1..], policy);
    }
  }

  // ----- The evaluator -----

  /** The occurrences of all lineages a policy selects. */
  method CollectPending(policies: seq<string>, lifetimes: seq<Lifetime>) returns (pending: seq<Item>)
    ensures pending == PendingAll(policies, lifetimes)
  {
    hide Applies, PendingIn;
    pending := [];
    assert policies[0..] == policies;
    for i := 0 to |policies|
      invariant pending + PendingAll(policies[i..], lifetimes) == PendingAll(policies, lifetimes)
    {
      assert policies[i..][1..] == policies[i + 1..];
      assert lifetimes[0..] == lifetimes;
      ghost var before := pending;
      for j := 0 to |lifetimes|
        invariant pending + PendingFor(policies[i], lifetimes[j..]) == before + PendingFor(policies[i], lifetimes)
      {
        assert lifetimes[j..][1..] == lifetimes[j + 1..];
        Joined(pending, PendingIn(policies[i], lifetimes[j], lifetimes[j].lineage.occurrences),
               PendingFor(policies[i], lifetimes[j + 1..]));
        pending := AddOccurrences(pending, policies[i], lifetimes[j]);
      }
      assert lifetimes[|lifetimes|..] == [] && pending + [] == pending;
      Joined(before, PendingFor(policies[i], lifetimes), PendingAll(policies[i + 1..], lifetimes));
    }
    assert policies[|policies|..] == [];
  }

  lemma Joined<T>(a: seq<T>, b: seq<T>, c: seq<T>)
    ensures (a + b) + c == a + (b + c)
  {
  }

  method AddOccurrences(pending: seq<Item>, policy: string, l: Lifetime) returns (r: seq<Item>)
    ensures r == pending + PendingIn(policy, l, l.lineage.occurrences)
  {
    hide Applies;
    r := pending;
    var occurrences := l.lineage.occurrences;
    assert occurrences[0..] == occurrences;
    for k := 0 to |occurrences|
      invariant r + PendingIn(policy, l, occurrences[k..]) == pending + PendingIn(policy, l, occurrences)
    {
      assert occurrences[k..][1..] == occurrences[k + 1..];
      var age := Age(l, occurrences[k]);
      if age > 0 && Applies(policy, age, l.tokens) {
        r := r + [Item(policy, l, occurrences[k])];
      }
    }
    assert occurrences[|occurrences|..] == [];
  }

  function Truncated(items: seq<Item>, limit: nat): seq<Item> {
    if |items| > limit then items[..limit] else items
  }

  /** The loop that hands out the shares. */
  method Apportion(rows: seq<Row>, pending: seq<Item>, o: Overheads) returns (candidates: seq<Candidate>)
    ensures candidates == CandidatesOf(rows, pending, o)
  {
    hide Budget, Share, Gross, Count;
    var emitted: map<string, nat> := map[];
    candidates := [];
    assert pending[..0] == [];
    NoneCounted();
    for i := 0 to |pending|
      invariant |candidates| == i && forall j :: 0 <= j < i ==> candidates[j] == CandidateAt(rows, pending, j, o)
      invariant forall p :: (if p in emitted then emitted[p] else 0) == Count(pending[..i], p)
    {
      var item := pending[i];
      var n := Count(pending, item.policy);
      CountPositive(pending, i);
      var position := if item.policy in emitted then emitted[item.policy] else 0;
      CountSteps(pending, i);
      emitted := emitted[item.policy := position + 1];
      var share := Share(Budget(rows, pending, item.policy, o), n, position);
      candidates := candidates + [Candidate(item, o.stubTokens, share, Gross(item) - o.stubTokens - share)];
    }
  }

  lemma NoneCounted()
    ensures forall p :: Count([], p) == 0
  {
  }

  lemma CountPositive(items: seq<Item>, i: nat)
    requires i < |items|
    ensures Count(items, items[i].policy) > 0
  {
    CountNonNegative(items, items[i].policy);
    assert items[i] in items;
  }

  /** `candidate_rows` from the lineages on: `None` is the error raised for a bound that is not positive. */
  method CandidateRows(rows: seq<Row>, lifetimes: seq<Lifetime>, policies: seq<string>, limit: int, o: Overheads)
    returns (r: Option<(seq<Candidate>, nat)>)
    ensures r.None? <==> limit <= 0
    ensures r.Some? ==>
              var pending := SortOn(PendingAll(policies, lifetimes), ItemKey);
              && r.value.0 == CandidatesOf(rows, Truncated(pending, limit), o)
              && |r.value.0| <= limit
              && r.value.1 == |PendingAll(policies, lifetimes)| - |r.value.0|
  {
    hide PendingAll, SortOn, CandidatesOf;
    if limit <= 0 {
      return None;
    }
    var pending := CollectPending(policies, lifetimes);
    SortOnSorted(pending, ItemKey);
    pending := SortOn(pending, ItemKey);
    assert |multiset(pending)| == |multiset(PendingAll(policies, lifetimes))|;
    var dropped := if |pending| > limit then |pending| - limit else 0;
    var candidates := Apportion(rows, Truncated(pending, limit), o);
    return Some((candidates, dropped));
  }

  lemma CountSteps(items: seq<Item>, i: nat)
    requires i < |items|
    ensures forall p :: Count(items[..i + 1], p) == Count(items[..i], p) + if items[i].policy == p then 1 else 0
  {
    forall p ensures Count(items[..i + 1], p) == Count(items[..i], p) + if items[i].policy == p then 1 else 0 {
      CountStep(items, i, p);
    }
  }
}
