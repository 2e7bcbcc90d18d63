/** When the outcome of a request depends on the order in which its snapshots are read. */
module LedgerOrder {
  import opened Sorting
  import opened Ledger

  predicate Rearranged(a: seq<Snapshot>, b: seq<Snapshot>) {
    multiset(a) == multiset(b)
  }

  /** No candidate sorts after `x`. */
  ghost predicate IsTop(x: Snapshot, s: seq<Snapshot>) {
    x in s && forall y :: y in s ==> NotAfter(y, x, SnapshotKey)
  }

  /** The candidates that can come last agree on being complete. */
  ghost predicate TopsAgree(s: seq<Snapshot>) {
    forall x, y :: IsTop(x, s) && IsTop(y, s) ==> SaysComplete(x) == SaysComplete(y)
  }

  lemma LastIsTop(s: seq<Snapshot>)
    requires s != []
    ensures var sorted := SortOn(s, SnapshotKey); sorted != [] && IsTop(sorted[|sorted| - 1], s)
  {
    hide NotAfter, SortOn;
    var sorted := SortOn(s, SnapshotKey);
    SortOnSorted(s, SnapshotKey);
    assert |multiset(sorted)| == |multiset(s)|;
    var last := sorted[|sorted| - 1];
    assert last in multiset(sorted);
    forall y | y in s ensures NotAfter(y, last, SnapshotKey) {
      assert y in multiset(sorted);
      var i :| 0 <= i < |sorted| && sorted[i] == y;
      if i == |sorted| - 1 {
        NotAfterTotal(y, y, SnapshotKey);
      }
    }
  }

  lemma {:induction false} InsertKeepsLast(x: Snapshot, s: seq<Snapshot>)
    requires s != [] && NotAfter(x, s[|s| - 1], SnapshotKey)
    ensures var r := InsertOn(x, s, SnapshotKey); r != [] && r[|r| - 1] == s[|s| - 1]
  {
    hide NotAfter;
    if !NotAfter(x, s[0], SnapshotKey) {
      InsertKeepsLast(x, s[1..]);
    }
  }

  /** A candidate that nothing sorts after, read last, is the one chosen. */
  lemma {:induction false} TopReadLast(s: seq<Snapshot>, x: Snapshot)
    requires forall y :: y in s ==> NotAfter(y, x, SnapshotKey)
    ensures var sorted := SortOn(s + [x], SnapshotKey); sorted != [] && sorted[|sorted| - 1] == x
  {
    hide NotAfter, InsertOn;
    var all := s + [x];
    if s == [] {
      assert all[1..] == [] && all == [x];
      SortOnOne(x);
    } else {
      assert all[1..] == s[1..] + [x];
      TopReadLast(s[1..], x);
      InsertKeepsLast(s[0], SortOn(all[1..], SnapshotKey));
    }
  }

  lemma SortOnOne(x: Snapshot)
    ensures SortOn([x], SnapshotKey) == [x]
  {
    assert [x][1..] == [];
  }

  lemma {:induction false} TerminalsMultiset(s: seq<Snapshot>, x: Snapshot)
    ensures multiset(Terminals(s))[x] == if Terminal(x) then multiset(s)[x] else 0
  {
    if s != [] {
      TerminalsMultiset(s[1..], x);
      assert s == [s[0]] + s[1..];
    }
  }

  lemma CandidatesRearranged(a: seq<Snapshot>, b: seq<Snapshot>)
    requires Rearranged(a, b)
    ensures Terminals(a) == [] <==> Terminals(b) == []
    ensures Candidates(a) == [] <==> Candidates(b) == []
    ensures forall x :: x in Candidates(a) <==> x in Candidates(b)
  {
    hide Terminals;
    forall x ensures x in Terminals(a) <==> x in Terminals(b) {
      TerminalsMultiset(a, x);
      TerminalsMultiset(b, x);
      assert x in Terminals(a) <==> x in multiset(Terminals(a));
      assert x in Terminals(b) <==> x in multiset(Terminals(b));
    }
    forall x ensures x in a <==> x in b {
      assert x in a <==> x in multiset(a);
      assert x in b <==> x in multiset(b);
    }
    if Terminals(a) != [] {
      assert Terminals(a)[0] in Terminals(b);
    }
    if Terminals(b) != [] {
      assert Terminals(b)[0] in Terminals(a);
    }
    assert |multiset(a)| == |multiset(b)|;
  }

  /** The outcome does not depend on the order when the last candidates agree. */
  lemma AgreeingOrder(a: seq<Snapshot>, b: seq<Snapshot>)
    requires Rearranged(a, b) && (Terminals(a) != [] ==> TopsAgree(Candidates(a)))
    ensures OutcomeOf(a) == OutcomeOf(b)
  {
    hide Terminals, SortOn, NotAfter, Candidates;
    CandidatesRearranged(a, b);
    if Candidates(a) != [] {
      LastIsTop(Candidates(a));
      LastIsTop(Candidates(b));
      assert Chosen(a).Some? && Chosen(b).Some?;
      assert IsTop(Chosen(b).value, Candidates(a));
    } else {
      SortNothing(Candidates(a));
      SortNothing(Candidates(b));
    }
  }

  lemma SortNothing(s: seq<Snapshot>)
    requires s == []
    ensures SortOn(s, SnapshotKey) == []
  {
  }

  /** Distinct names leave only one last candidate. */
  lemma DistinctNamesAgree(s: seq<Snapshot>)
    requires forall i, j :: 0 <= i < j < |s| ==> s[i].id != s[j].id
    requires forall i :: 0 <= i < |s| ==> s[i].id.Some?
    ensures TopsAgree(Candidates(s))
  {
    hide StringLess;
    forall x, y | IsTop(x, Candidates(s)) && IsTop(y, Candidates(s)) ensures x == y {
      CandidateIn(s, x);
      CandidateIn(s, y);
      KeyOrder(SnapshotKey(x), SnapshotKey(y), SnapshotKey(x));
      assert SnapshotKey(x)[2] == SnapshotKey(y)[2];
    }
  }

  lemma {:induction false} CandidateIn(s: seq<Snapshot>, x: Snapshot)
    ensures x in Candidates(s) ==> x in s
  {
    TerminalsMultiset(s, x);
    assert x in Terminals(s) <==> x in multiset(Terminals(s));
    assert x in s <==> x in multiset(s);
  }

  /** `s` without one occurrence of `x`, and `x` at the end. */
  lemma MoveLast(s: seq<Snapshot>, x: Snapshot) returns (front: seq<Snapshot>)
    requires x in s
    ensures Rearranged(s, front + [x])
  {
    var i :| 0 <= i < |s| && s[i] == x;
    front := s[..i] + s[i + 1..];
    assert s == s[..i] + [x] + s[i + 1..];
  }

  lemma {:induction false} TerminalsAppend(a: seq<Snapshot>, b: seq<Snapshot>)
    ensures Terminals(a + b) == Terminals(a) + Terminals(b)
  {
    hide Terminal;
    if a == [] {
      assert a + b == b;
    } else {
      assert (a + b)[1..] == a[1..] + b;
      TerminalsAppend(a[1..], b);
    }
  }

  lemma TerminalOne(x: Snapshot)
    requires Terminal(x)
    ensures Terminals([x]) == [x]
  {
    assert [x][1..] == [];
  }

  /** A terminal snapshot that nothing sorts after decides the outcome when it is read last. */
  lemma DecidingOrder(a: seq<Snapshot>, x: Snapshot) returns (b: seq<Snapshot>)
    requires Terminals(a) != [] && IsTop(x, Candidates(a))
    ensures Rearranged(a, b) && OutcomeOf(b) == if SaysComplete(x) then Complete else Partial
  {
    hide SortOn, NotAfter, Terminals;
    CandidateIn(a, x);
    CandidateTerminal(a, x);
    var front := MoveLast(a, x);
    b := front + [x];
    CandidatesRearranged(a, b);
    TerminalsAppend(front, [x]);
    TerminalOne(x);
    forall y | y in Terminals(front) ensures NotAfter(y, x, SnapshotKey) {
      assert y in Terminals(front) + [x];
      assert y in Candidates(b);
    }
    TopReadLast(Terminals(front), x);
  }

  lemma CandidateTerminal(s: seq<Snapshot>, x: Snapshot)
    requires Terminals(s) != [] && x in Candidates(s)
    ensures Terminal(x)
  {
    TerminalsMultiset(s, x);
    assert x in Terminals(s) <==> x in multiset(Terminals(s));
  }

  /** Every way of reading the snapshots gives one outcome exactly when those that can be chosen agree. */
  lemma OrderIrrelevantExactly(a: seq<Snapshot>)
    ensures (forall b :: Rearranged(a, b) ==> OutcomeOf(b) == OutcomeOf(a))
            <==> (Terminals(a) != [] ==> TopsAgree(Candidates(a)))
  {
    hide Terminals, OutcomeOf, Candidates, Rearranged, IsTop;
    if Terminals(a) != [] ==> TopsAgree(Candidates(a)) {
      forall b | Rearranged(a, b) ensures OutcomeOf(b) == OutcomeOf(a) {
        AgreeingOrder(a, b);
      }
    } else {
      var x, y :| IsTop(x, Candidates(a)) && IsTop(y, Candidates(a)) && SaysComplete(x) != SaysComplete(y);
      var b := DecidingOrder(a, x);
      var c := DecidingOrder(a, y);
    }
  }
}
