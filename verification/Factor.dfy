/** Repeated-subtree factoring: counting container subtrees, replacing repeats by references, and expanding them. */
module Factor {
  import opened Base
  import opened JsonString
  import opened JsonGrammar
  import opened Decimal
  import opened Values
  import opened Validator
  import opened Minify

  // ----- Occurrences -----

  /** How often the container `w` occurs in `v`, the root included. */
  function Occurrences(v: Value, w: Value): nat
    decreases v, 1
  {
    if v.Box? then (if v == w then 1 else 0) + OccurrencesIn(v.kids, w) else 0
  }

  function OccurrencesIn(kids: Kids, w: Value): nat
    decreases kids, 0
  {
    if kids.NoKids? then 0 else Occurrences(kids.value, w) + OccurrencesIn(kids.rest, w)
  }

  lemma {:induction false} OccurrencesSmaller(v: Value, w: Value)
    ensures Occurrences(v, w) > 0 ==> Nodes(w) <= Nodes(v)
    ensures Occurrences(v, v) == if v.Box? then 1 else 0
    decreases v, 1
  {
    if v.Box? {
      OccurrencesInSmaller(v.kids, w);
      OccurrencesInSmaller(v.kids, v);
    }
  }

  lemma {:induction false} OccurrencesInSmaller(kids: Kids, w: Value)
    ensures OccurrencesIn(kids, w) > 0 ==> Nodes(w) <= NodesIn(kids)
    decreases kids, 0
  {
    if kids.Kid? {
      OccurrencesSmaller(kids.value, w);
      OccurrencesInSmaller(kids.rest, w);
    }
  }

  /** What occurs in a subtree occurs at least as often as the subtree. */
  lemma {:induction false} OccurrencesInside(v: Value, d: Value, w: Value)
    requires Occurrences(d, w) > 0
    ensures Occurrences(v, w) >= Occurrences(v, d)
    decreases v, 1
  {
    if v.Box? {
      if v == d {
        OccurrencesSmaller(v, v);
      } else {
        OccurrencesInsideKids(v.kids, d, w);
      }
    }
  }

  lemma {:induction false} OccurrencesInsideKids(kids: Kids, d: Value, w: Value)
    requires Occurrences(d, w) > 0
    ensures OccurrencesIn(kids, w) >= OccurrencesIn(kids, d)
    decreases kids, 0
  {
    if kids.Kid? {
      OccurrencesInside(kids.value, d, w);
      OccurrencesInsideKids(kids.rest, d, w);
    }
  }

  // ----- Counting -----

  datatype Tally = Tally(freq: map<bytes, u64>, work: u64, retained: u64)

  function Count(freq: map<bytes, u64>, b: bytes): u64 {
    if b in freq then freq[b] else 0
  }

  /** The work the count charges: one per node, and each container's encoding. */
  function Cost(v: Value): nat
    decreases v, 1
  {
    if v.Box? then 1 + CostOf(v.kids) + |ToBytes(v)| else 1
  }

  function CostOf(kids: Kids): nat
    decreases kids, 0
  {
    if kids.NoKids? then 0 else Cost(kids.value) + CostOf(kids.rest)
  }

  /** The encodings of the containers of `v`. */
  function Encodings(v: Value): set<bytes>
    decreases v, 1
  {
    if v.Box? then EncodingsIn(v.kids) + {ToBytes(v)} else {}
  }

  function EncodingsIn(kids: Kids): set<bytes>
    decreases kids, 0
  {
    if kids.NoKids? then {} else Encodings(kids.value) + EncodingsIn(kids.rest)
  }

  /** They are the encodings of the values that occur. */
  lemma {:induction false} EncodingsExact(v: Value, w: Value)
    requires WellFormedValue(v) && WellFormedValue(w)
    ensures ToBytes(w) in Encodings(v) <==> Occurrences(v, w) > 0
    decreases v, 1
  {
    hide ToBytes, WellFormedValue;
    if v.Box? {
      KidsWellFormed(v);
      EncodingsInExact(v.shape, v.kids, w);
      if ToBytes(w) == ToBytes(v) {
        ToBytesInjective(v, w);
      }
    }
  }

  lemma {:induction false} EncodingsInExact(shape: Shape, kids: Kids, w: Value)
    requires WellFormedKids(shape, kids) && WellFormedValue(w)
    ensures ToBytes(w) in EncodingsIn(kids) <==> OccurrencesIn(kids, w) > 0
    decreases kids, 0
  {
    hide ToBytes, WellFormedValue, Occurrences, Encodings;
    if kids.Kid? {
      EncodingsExact(kids.value, w);
      EncodingsInExact(shape, kids.rest, w);
    }
  }

  /** The bytes a set of encodings retains. */
  ghost function Size(keys: set<bytes>): nat {
    if keys == {} then 0
    else
      var k :| k in keys;
      |k| + Size(keys - {k})
  }

  lemma {:induction false} SizeWithout(keys: set<bytes>, k: bytes)
    requires k in keys
    ensures Size(keys) == |k| + Size(keys - {k})
    decreases |keys|
  {
    var j :| j in keys && Size(keys) == |j| + Size(keys - {j});
    if j != k {
      SizeWithout(keys - {j}, k);
      SizeWithout(keys - {k}, j);
      assert keys - {j} - {k} == keys - {k} - {j};
    }
  }

  lemma {:induction false} SizeUnion(a: set<bytes>, b: set<bytes>)
    requires a !! b
    ensures Size(a + b) == Size(a) + Size(b)
    decreases |b|
  {
    if b == {} {
      assert a + b == a;
    } else {
      var k :| k in b;
      SizeWithout(b, k);
      SizeWithout(a + b, k);
      assert a + b - {k} == a + (b - {k});
      SizeUnion(a, b - {k});
    }
  }

  /** What `more` adds to `held`, and `last` to both, is what they add together. */
  lemma SizeAdds(held: set<bytes>, more: set<bytes>, last: set<bytes>)
    ensures Size(more + last - held) == Size(more - held) + Size(last - (held + more))
  {
    assert more + last - held == (more - held) + (last - (held + more));
    SizeUnion(more - held, last - (held + more));
  }

  lemma SizeOne(k: bytes, held: set<bytes>)
    ensures Size({k} - held) == if k in held then 0 else |k|
    ensures Size({}) == 0
  {
    if k in held {
      assert {k} - held == {};
    } else {
      assert {k} - held == {k} && {k} - {k} == {};
      SizeWithout({k}, k);
    }
  }

  /** No count and no number of counts exceeds the work done, so counting never saturates. */
  ghost predicate Bounded(t: Tally) {
    |t.freq| <= t.work && forall b :: b in t.freq ==> t.freq[b] <= t.work
  }

  /** `t'` counts what `t` counts and the containers of `v` besides. */
  ghost predicate Counted(t: Tally, t': Tally, v: Value) {
    forall w: Value :: WellFormedValue(w) ==> Count(t'.freq, ToBytes(w)) == Count(t.freq, ToBytes(w)) + Occurrences(v, w)
  }

  ghost predicate CountedIn(t: Tally, t': Tally, kids: Kids) {
    forall w: Value :: WellFormedValue(w) ==>
      Count(t'.freq, ToBytes(w)) == Count(t.freq, ToBytes(w)) + OccurrencesIn(kids, w)
  }

  /** Keys of the map are encodings of containers. */
  ghost predicate KeysAreBoxes(freq: map<bytes, u64>) {
    forall b :: b in freq ==> freq[b] > 0 && exists w: Value :: WellFormedValue(w) && w.Box? && ToBytes(w) == b
  }

  /** A work budget below the saturation point of the counter, as any budget that can be reached is. */
  predicate Reachable(limits: Limits) {
    limits.maxWork < U64_MAX
  }

  /** Counting a value with encodings `added` and the cost `cost` fits both budgets. */
  ghost predicate Fits(t: Tally, cost: nat, added: set<bytes>, limits: Limits) {
    t.work + cost <= limits.maxWork && t.retained + Size(added - t.freq.Keys) <= limits.maxMemory
  }

  /** The tally after counting it: every distinct encoding is retained once. */
  ghost predicate Charged(t: Tally, t': Tally, cost: nat, added: set<bytes>) {
    && t'.work == t.work + cost
    && t'.retained == t.retained + Size(added - t.freq.Keys)
    && t'.freq.Keys == t.freq.Keys + added
  }

  /** Charging in two steps is charging the sum. */
  lemma ChargeTwice(t: Tally, m: Tally, a: nat, x: set<bytes>, b: nat, y: set<bytes>, limits: Limits)
    requires Charged(t, m, a, x)
    ensures Fits(t, a + b, x + y, limits) <==> Fits(m, b, y, limits)
    ensures forall t' :: Charged(m, t', b, y) ==> Charged(t, t', a + b, x + y)
  {
    hide Size;
    SizeAdds(t.freq.Keys, x, y);
    assert (t.freq.Keys + x) + y == t.freq.Keys + (x + y);
  }

  lemma FitsLess(t: Tally, a: nat, x: set<bytes>, b: nat, y: set<bytes>, limits: Limits)
    requires Fits(t, a + b, x + y, limits)
    ensures Fits(t, a, x, limits)
  {
    hide Size;
    SizeAdds(t.freq.Keys, x, y);
  }

  /** The charge of one node. */
  lemma ChargeNode(t: Tally, limits: Limits)
    requires t.work < U64_MAX && t.retained <= limits.maxMemory
    ensures Charged(t, t.(work := t.work + 1), 1, {})
    ensures Fits(t, 1, {}, limits) <==> t.work + 1 <= limits.maxWork
    ensures Charged(t, t, 0, {})
  {
    hide Size;
    SizeOne([], {});
    assert {} - t.freq.Keys == {};
  }

  lemma Within(t: Tally, t': Tally, cost: nat, added: set<bytes>, limits: Limits)
    requires Fits(t, cost, added, limits) && Charged(t, t', cost, added)
    ensures t'.work <= limits.maxWork && t'.retained <= limits.maxMemory
  {
  }

  method CollectSubtrees(v: Value, t: Tally, limits: Limits) returns (r: Option<Tally>)
    requires Reachable(limits) && WellFormedValue(v) && Bounded(t) && KeysAreBoxes(t.freq)
    requires t.work <= limits.maxWork && t.retained <= limits.maxMemory
    ensures r.Some? <==> Fits(t, Cost(v), Encodings(v), limits)
    ensures r.Some? ==>
              && Bounded(r.value) && KeysAreBoxes(r.value.freq) && Counted(t, r.value, v)
              && Charged(t, r.value, Cost(v), Encodings(v))
    decreases v, 1
  {
    hide ToBytes, WellFormedValue, Cost, Occurrences, Encodings, Fits, Charged, Bounded, Counted, CountedIn, CountedOne,
         KeysAreBoxes;
    var t' := t.(work := SatAdd(t.work, 1));
    NodeCharge(v, t, limits);
    if t'.work > limits.maxWork {
      return None;
    }
    NodeBounded(t);
    if !v.Box? {
      NoOccurrences(v, t, t');
      return Some(t');
    }
    KidsWellFormed(v);
    var below := CollectKids(v.shape, v.kids, t', limits);
    BoxCharge(v, t, t', limits);
    if below.None? {
      return None;
    }
    OwnCharge(v, t, t', below.value, limits);
    r := CountOne(v, below.value, limits);
    if r.Some? {
      CountedBox(t', below.value, r.value, v);
      CountedSame(t, t', r.value, v);
    }
  }

  lemma NodeBounded(t: Tally)
    requires Bounded(t) && t.work < U64_MAX
    ensures Bounded(t.(work := t.work + 1))
  {
  }

  /** The charge of a node that holds nothing, and of one that stops at once. */
  lemma NodeCharge(v: Value, t: Tally, limits: Limits)
    requires t.work < U64_MAX && t.retained <= limits.maxMemory
    ensures Charged(t, t.(work := t.work + 1), 1, {})
    ensures t.work + 1 > limits.maxWork ==> !Fits(t, Cost(v), Encodings(v), limits)
    ensures !v.Box? ==> Cost(v) == 1 && Encodings(v) == {}
    ensures !v.Box? && t.work + 1 <= limits.maxWork ==> Fits(t, 1, {}, limits)
  {
    hide ToBytes, Fits, Charged;
    CostUnfold(v);
    ChargeNode(t, limits);
    if Fits(t, Cost(v), Encodings(v), limits) {
      assert {} + Encodings(v) == Encodings(v);
      FitsLess(t, 1, {}, Cost(v) - 1, Encodings(v), limits);
    }
  }

  lemma BoxCharge(v: Value, t: Tally, t': Tally, limits: Limits)
    requires v.Box? && Charged(t, t', 1, {})
    ensures Fits(t, Cost(v), Encodings(v), limits) ==> Fits(t', CostOf(v.kids), EncodingsIn(v.kids), limits)
  {
    hide ToBytes, Fits, Charged, Cost, Encodings;
    CostUnfold(v);
    if Fits(t, Cost(v), Encodings(v), limits) {
      FitsLess(t, 1 + CostOf(v.kids), EncodingsIn(v.kids), |ToBytes(v)|, {ToBytes(v)}, limits);
      ChargeTwice(t, t', 1, {}, CostOf(v.kids), EncodingsIn(v.kids), limits);
      assert {} + EncodingsIn(v.kids) == EncodingsIn(v.kids);
    }
  }

  lemma OwnCharge(v: Value, t: Tally, t': Tally, below: Tally, limits: Limits)
    requires v.Box? && Charged(t, t', 1, {}) && Charged(t', below, CostOf(v.kids), EncodingsIn(v.kids))
    ensures Fits(t, Cost(v), Encodings(v), limits) <==> Fits(below, |ToBytes(v)|, {ToBytes(v)}, limits)
    ensures forall r :: Charged(below, r, |ToBytes(v)|, {ToBytes(v)}) ==> Charged(t, r, Cost(v), Encodings(v))
  {
    hide ToBytes, Fits, Charged, Cost, Encodings;
    CostUnfold(v);
    ChargeTwice(t, t', 1, {}, CostOf(v.kids), EncodingsIn(v.kids), limits);
    assert {} + EncodingsIn(v.kids) == EncodingsIn(v.kids);
    ChargeTwice(t, below, 1 + CostOf(v.kids), EncodingsIn(v.kids), |ToBytes(v)|, {ToBytes(v)}, limits);
  }

  lemma CountedSame(t: Tally, also: Tally, t': Tally, v: Value)
    requires t.freq == also.freq && Counted(also, t', v)
    ensures Counted(t, t', v)
  {
    hide ToBytes, WellFormedValue, Occurrences;
  }

  lemma CostUnfold(v: Value)
    ensures Cost(v) == if v.Box? then 1 + CostOf(v.kids) + |ToBytes(v)| else 1
    ensures Encodings(v) == if v.Box? then EncodingsIn(v.kids) + {ToBytes(v)} else {}
  {
  }

  lemma NoOccurrences(v: Value, t: Tally, t': Tally)
    requires !v.Box? && t.freq == t'.freq
    ensures Counted(t, t', v)
  {
  }

  lemma KidsWellFormed(v: Value)
    requires v.Box? && WellFormedValue(v)
    ensures WellFormedKids(v.shape, v.kids)
  {
  }

  lemma CountedBox(t: Tally, below: Tally, t': Tally, v: Value)
    requires v.Box? && CountedIn(t, below, v.kids) && CountedOne(below, t', v)
    ensures Counted(t, t', v)
  {
    hide ToBytes, WellFormedValue;
  }

  /** One more occurrence of `v` itself. */
  ghost predicate CountedOne(t: Tally, t': Tally, v: Value) {
    forall w: Value :: WellFormedValue(w) ==>
      Count(t'.freq, ToBytes(w)) == Count(t.freq, ToBytes(w)) + if w == v then 1 else 0
  }

  method CollectKids(shape: Shape, kids: Kids, t: Tally, limits: Limits) returns (r: Option<Tally>)
    requires Reachable(limits) && WellFormedKids(shape, kids) && Bounded(t) && KeysAreBoxes(t.freq)
    requires t.work <= limits.maxWork && t.retained <= limits.maxMemory
    ensures r.Some? <==> Fits(t, CostOf(kids), EncodingsIn(kids), limits)
    ensures r.Some? ==>
              && Bounded(r.value) && KeysAreBoxes(r.value.freq) && CountedIn(t, r.value, kids)
              && Charged(t, r.value, CostOf(kids), EncodingsIn(kids))
              && r.value.work <= limits.maxWork && r.value.retained <= limits.maxMemory
    decreases kids, 0
  {
    hide ToBytes, WellFormedValue, Cost, Occurrences, Encodings, Fits, Charged, Bounded, KeysAreBoxes, Counted,
         CountedTo, CountedIn;
    var t' := t;
    var left := kids;
    ghost var cost: nat, added: set<bytes> := 0, {};
    ChargeNode(t, limits);
    CountedNone(t, kids);
    while left.Kid?
      invariant WellFormedKids(shape, left) && (left == kids || left < kids)
      invariant Bounded(t') && KeysAreBoxes(t'.freq)
      invariant CountedTo(t, t', kids, left)
      invariant t'.work <= limits.maxWork && t'.retained <= limits.maxMemory
      invariant Charged(t, t', cost, added)
      invariant cost + CostOf(left) == CostOf(kids) && added + EncodingsIn(left) == EncodingsIn(kids)
      decreases left
    {
      ghost var c, e := Cost(left.value), Encodings(left.value);
      ChargeTwice(t, t', cost, added, c, e, limits);
      assert added + EncodingsIn(left) == added + e + EncodingsIn(left.rest);
      var next := CollectSubtrees(left.value, t', limits);
      if next.None? {
        if Fits(t, CostOf(kids), EncodingsIn(kids), limits) {
          FitsLess(t, cost + c, added + e, CostOf(left.rest), EncodingsIn(left.rest), limits);
        }
        return None;
      }
      CountedNext(t, t', next.value, kids, left);
      Within(t', next.value, c, e, limits);
      t' := next.value;
      left := left.rest;
      cost, added := cost + c, added + e;
    }
    ChargedFits(t, t', cost, added, limits);
    CountedEnd(t, t', kids, left);
    return Some(t');
  }

  lemma ChargedFits(t: Tally, t': Tally, cost: nat, added: set<bytes>, limits: Limits)
    requires Charged(t, t', cost, added) && t'.work <= limits.maxWork && t'.retained <= limits.maxMemory
    ensures Fits(t, cost, added, limits)
  {
  }

  lemma CountedNone(t: Tally, kids: Kids)
    ensures CountedTo(t, t, kids, kids)
  {
  }

  lemma CountedEnd(t: Tally, t': Tally, kids: Kids, left: Kids)
    requires CountedTo(t, t', kids, left) && left.NoKids?
    ensures CountedIn(t, t', kids)
  {
    hide ToBytes, WellFormedValue;
  }

  /** `t'` counts the kids of `kids` that come before `left`. */
  ghost predicate CountedTo(t: Tally, t': Tally, kids: Kids, left: Kids) {
    forall w: Value :: WellFormedValue(w) ==>
      Count(t'.freq, ToBytes(w)) + OccurrencesIn(left, w) == Count(t.freq, ToBytes(w)) + OccurrencesIn(kids, w)
  }

  lemma CountedNext(t: Tally, t': Tally, next: Tally, kids: Kids, left: Kids)
    requires left.Kid? && CountedTo(t, t', kids, left) && Counted(t', next, left.value)
    ensures CountedTo(t, next, kids, left.rest)
  {
    hide ToBytes, WellFormedValue, Occurrences;
  }

  /** The entry of `v` itself, charged before it is inserted. */
  method CountOne(v: Value, t: Tally, limits: Limits) returns (r: Option<Tally>)
    requires Reachable(limits) && v.Box? && WellFormedValue(v) && Bounded(t) && KeysAreBoxes(t.freq)
    requires t.work <= limits.maxWork && t.retained <= limits.maxMemory
    ensures r.Some? <==> Fits(t, |ToBytes(v)|, {ToBytes(v)}, limits)
    ensures r.Some? ==>
              && Bounded(r.value) && KeysAreBoxes(r.value.freq) && CountedOne(t, r.value, v)
              && Charged(t, r.value, |ToBytes(v)|, {ToBytes(v)})
  {
    hide WellFormedValue, Bounded, KeysAreBoxes, CountedOne, Size;
    var encoded := ToBytes(v);
    assert EncodingOf(v, encoded);
    hide ToBytes;
    SizeOne(encoded, t.freq.Keys);
    var t' := t.(work := SatAdd(t.work, Len64(|encoded|)));
    if t'.work > limits.maxWork {
      return None;
    }
    if encoded !in t'.freq {
      if t'.retained + Len64(|encoded|) > U64_MAX {
        return None;
      }
      t' := t'.(retained := t'.retained + Len64(|encoded|));
      if t'.retained > limits.maxMemory {
        return None;
      }
    }
    CountedInsert(t, v, encoded);
    t' := t'.(freq := t'.freq[encoded := SatAdd(Count(t'.freq, encoded), 1)]);
    assert t'.freq.Keys == t.freq.Keys + {encoded};
    return Some(t');
  }

  ghost predicate EncodingOf(v: Value, encoded: bytes) {
    encoded == ToBytes(v) && encoded != []
  }

  lemma CountedInsert(t: Tally, v: Value, encoded: bytes)
    requires v.Box? && WellFormedValue(v) && Bounded(t) && KeysAreBoxes(t.freq) && EncodingOf(v, encoded)
    ensures var freq := t.freq[encoded := SatAdd(Count(t.freq, encoded), 1)];
            && KeysAreBoxes(freq)
            && forall t': Tally :: t'.freq == freq && t'.work > t.work ==> Bounded(t') && CountedOne(t, t', v)
  {
    hide ToBytes, WellFormedValue;
    forall w: Value | WellFormedValue(w) && ToBytes(w) == encoded
      ensures w == v
    {
      ToBytesInjective(v, w);
    }
  }

  // ----- Definitions -----

  /** A distinct container that occurs more than once and is worth a reference. */
  ghost predicate Repeated(v: Value, w: Value) {
    WellFormedValue(w) && w.Box? && Occurrences(v, w) > 1 && |ToBytes(w)| >= 8
  }

  /** Exactly the repeated containers of `v`, each once. */
  ghost predicate Repeats(v: Value, found: seq<Value>) {
    && (forall w: Value :: w in found <==> Repeated(v, w))
    && (forall i, j :: 0 <= i < j < |found| ==> found[i] != found[j])
  }

  /** Every text of a definition leads to a definition with that text, the last one if several are alike. */
  ghost predicate Indexes(defs: seq<Value>, indices: map<bytes, nat>) {
    && (forall i :: 0 <= i < |defs| ==> ToBytes(defs[i]) in indices && i <= indices[ToBytes(defs[i])])
    && (forall b :: b in indices ==> indices[b] < |defs| && ToBytes(defs[indices[b]]) == b)
  }

  /** The definitions of `v`: its repeated containers, as the library reads them back from their text. */
  ghost predicate Defined(lib: Library, v: Value, found: seq<Value>, defs: seq<Value>, indices: map<bytes, nat>) {
    Repeats(v, found) && defs == RereadAll(lib, found) && Indexes(defs, indices)
  }

  /** Definitions that are the repeated containers themselves, with the index of each under its text. */
  ghost predicate Defines(v: Value, defs: seq<Value>, indices: map<bytes, nat>) {
    && (forall w: Value :: w in defs <==> Repeated(v, w))
    && (forall i :: 0 <= i < |defs| ==> ToBytes(defs[i]) in indices && indices[ToBytes(defs[i])] == i)
    && (forall b :: b in indices ==> indices[b] < |defs| && ToBytes(defs[indices[b]]) == b)
  }

  /** The library accepts the text of every one of the containers. */
  ghost predicate AllAccepted(lib: Library, found: seq<Value>) {
    forall i :: 0 <= i < |found| ==> lib.accepts(ToBytes(found[i]))
  }

  /** `order` lists each key of the map once; the ordered map of the source has one such order. */
  ghost predicate Enumerates(order: seq<bytes>, keys: set<bytes>) {
    && (forall b :: b in order <==> b in keys)
    && (forall i, j :: 0 <= i < j < |order| ==> order[i] != order[j])
  }

  lemma {:induction false} EnumeratesSize(order: seq<bytes>, keys: set<bytes>)
    requires Enumerates(order, keys)
    ensures |order| == |keys|
    decreases |order|
  {
    if order == [] {
      assert keys == {};
    } else {
      var b := order[|order| - 1];
      assert order == order[..|order| - 1] + [b];
      EnumeratesSize(order[..|order| - 1], keys - {b});
    }
  }

  /** The frequencies of a whole document. */
  ghost predicate CountsOf(freq: map<bytes, u64>, v: Value) {
    KeysAreBoxes(freq) && forall w: Value :: WellFormedValue(w) ==> Count(freq, ToBytes(w)) == Occurrences(v, w)
  }

  /**
    The repeated containers in the order of their text, each read back from it; `None` when the library rejects one of
    those texts.
   */
  method Definitions(v: Value, freq: map<bytes, u64>, order: seq<bytes>, lib: Library)
    returns (r: Option<seq<Value>>, ghost found: seq<Value>)
    requires CountsOf(freq, v) && Enumerates(order, freq.Keys)
    ensures Repeats(v, found) && |found| <= |freq|
    ensures r.Some? <==> AllAccepted(lib, found)
    ensures r.Some? ==> r.value == RereadAll(lib, found)
  {
    hide ToBytes, WellFormedValue, Occurrences, FromBytes, Reread, AllAccepted, FoundUpTo, Repeats;
    found := FoundIn(v, freq, order, |order|);
    FoundAll(v, freq, order);
    EnumeratesSize(order, freq.Keys);
    NothingFound(v, freq, order, lib);
    var defs: seq<Value> := [];
    for i := 0 to |order|
      invariant AllAccepted(lib, FoundIn(v, freq, order, i))
      invariant defs == RereadAll(lib, FoundIn(v, freq, order, i))
    {
      var b := order[i];
      assert b in freq.Keys;
      ghost var w := BoxOf(freq, b);
      Positive(freq, v, b, w);
      FoundStep(v, freq, order, i, lib);
      if freq[b] > 1 && |b| >= 8 {
        FromToBytes(lib, w);
        ReadsBack(lib, w);
        if !Accepts(lib, b) {
          FoundPrefix(v, freq, order, i + 1, lib);
          return None, found;
        }
        defs := defs + [FromBytes(lib, b).value];
      }
    }
    return Some(defs), found;
  }

  lemma ReadsBack(lib: Library, w: Value)
    requires FromBytes(lib, ToBytes(w)).Some?
    ensures Accepts(lib, ToBytes(w)) <==> lib.accepts(ToBytes(w))
  {
  }

  /** The repeated containers among the first `n` keys. */
  ghost function FoundIn(v: Value, freq: map<bytes, u64>, order: seq<bytes>, n: nat): (r: seq<Value>)
    requires CountsOf(freq, v) && Enumerates(order, freq.Keys) && n <= |order|
    ensures |r| <= n
    ensures FoundUpTo(v, order, n, r)
  {
    hide ToBytes, WellFormedValue, Occurrences;
    if n == 0 then []
    else
      var before := FoundIn(v, freq, order, n - 1);
      assert order[n - 1] in freq.Keys;
      var w := BoxOf(freq, order[n - 1]);
      FindOneMore(v, order, n - 1, before, w);
      if Repeated(v, w) then before + [w] else before
  }

  ghost predicate FoundUpTo(v: Value, order: seq<bytes>, n: nat, found: seq<Value>)
    requires n <= |order|
  {
    && (forall w: Value :: w in found <==> Repeated(v, w) && ToBytes(w) in order[..n])
    && (forall i, j :: 0 <= i < j < |found| ==> found[i] != found[j])
  }

  lemma FindOneMore(v: Value, order: seq<bytes>, n: nat, before: seq<Value>, w: Value)
    requires n < |order| && FoundUpTo(v, order, n, before)
    requires forall i, j :: 0 <= i < j < |order| ==> order[i] != order[j]
    requires WellFormedValue(w) && ToBytes(w) == order[n]
    ensures FoundUpTo(v, order, n + 1, if Repeated(v, w) then before + [w] else before)
  {
    hide ToBytes, WellFormedValue, Occurrences;
    assert order[..n + 1] == order[..n] + [order[n]];
    forall u: Value | Repeated(v, u) && ToBytes(u) == order[n]
      ensures u == w
    {
      ToBytesInjective(u, w);
    }
    assert w !in before;
  }

  lemma FoundAll(v: Value, freq: map<bytes, u64>, order: seq<bytes>)
    requires CountsOf(freq, v) && Enumerates(order, freq.Keys)
    ensures Repeats(v, FoundIn(v, freq, order, |order|))
  {
    hide ToBytes, WellFormedValue, Occurrences, FoundIn;
    var found := FoundIn(v, freq, order, |order|);
    assert order[..|order|] == order;
    forall w: Value | Repeated(v, w)
      ensures ToBytes(w) in order
    {
      assert Count(freq, ToBytes(w)) > 0;
      assert ToBytes(w) in freq.Keys;
    }
  }

  lemma NothingFound(v: Value, freq: map<bytes, u64>, order: seq<bytes>, lib: Library)
    requires CountsOf(freq, v) && Enumerates(order, freq.Keys)
    ensures AllAccepted(lib, FoundIn(v, freq, order, 0)) && RereadAll(lib, FoundIn(v, freq, order, 0)) == []
  {
  }

  /** One more key: its container is found exactly when it is counted twice and long enough. */
  lemma FoundStep(v: Value, freq: map<bytes, u64>, order: seq<bytes>, n: nat, lib: Library)
    requires CountsOf(freq, v) && Enumerates(order, freq.Keys) && n < |order| && order[n] in freq
    ensures var b := order[n];
            var w := BoxOf(freq, b);
            var now, next := FoundIn(v, freq, order, n), FoundIn(v, freq, order, n + 1);
            if freq[b] > 1 && |b| >= 8 then
              && RereadAll(lib, next) == RereadAll(lib, now) + [Reread(lib, w)]
              && (AllAccepted(lib, next) <==> AllAccepted(lib, now) && lib.accepts(b))
            else next == now
  {
    hide ToBytes, WellFormedValue, Occurrences, Reread, FoundUpTo;
    var b := order[n];
    var w := BoxOf(freq, b);
    Positive(freq, v, b, w);
    var now, next := FoundIn(v, freq, order, n), FoundIn(v, freq, order, n + 1);
    if freq[b] > 1 && |b| >= 8 {
      assert next == now + [w];
      assert forall i :: 0 <= i < |now| ==> next[i] == now[i];
      assert next[|now|] == w;
    }
  }

  /** A text that is rejected stays among those found. */
  lemma {:induction false} FoundPrefix(v: Value, freq: map<bytes, u64>, order: seq<bytes>, n: nat, lib: Library)
    requires CountsOf(freq, v) && Enumerates(order, freq.Keys) && n <= |order|
    requires !AllAccepted(lib, FoundIn(v, freq, order, n))
    ensures !AllAccepted(lib, FoundIn(v, freq, order, |order|))
    decreases |order| - n
  {
    hide ToBytes, WellFormedValue, Occurrences, AllAccepted, FoundUpTo, FoundIn, Reread, CountsOf, Enumerates;
    if n < |order| {
      OrderInKeys(v, freq, order, n);
      FoundStep(v, freq, order, n, lib);
      FoundPrefix(v, freq, order, n + 1, lib);
    }
  }

  lemma OrderInKeys(v: Value, freq: map<bytes, u64>, order: seq<bytes>, n: nat)
    requires Enumerates(order, freq.Keys) && n < |order|
    ensures order[n] in freq
  {
    assert order[n] in freq.Keys;
  }

  ghost function BoxOf(freq: map<bytes, u64>, b: bytes): (w: Value)
    requires KeysAreBoxes(freq) && b in freq
    ensures WellFormedValue(w) && w.Box? && ToBytes(w) == b
  {
    var w: Value :| WellFormedValue(w) && w.Box? && ToBytes(w) == b;
    w
  }

  lemma Positive(freq: map<bytes, u64>, v: Value, b: bytes, w: Value)
    requires CountsOf(freq, v) && b in freq && WellFormedValue(w) && ToBytes(w) == b
    ensures freq[b] == Occurrences(v, w)
  {
    hide ToBytes, WellFormedValue, Occurrences;
  }

  /** The index of every definition, collected into an ordered map. */
  method Index(defs: seq<Value>) returns (indices: map<bytes, nat>)
    ensures Indexes(defs, indices)
  {
    hide ToBytes;
    indices := map[];
    for i := 0 to |defs|
      invariant forall k :: 0 <= k < i ==> ToBytes(defs[k]) in indices && k <= indices[ToBytes(defs[k])]
      invariant forall b :: b in indices ==> indices[b] < i && ToBytes(defs[indices[b]]) == b
    {
      indices := indices[ToBytes(defs[i]) := i];
    }
  }

  // ----- Stable documents -----

  lemma {:induction false} StableInside(lib: Library, v: Value, w: Value)
    requires Stable(lib, v) && Occurrences(v, w) > 0
    ensures Stable(lib, w)
    decreases v, 1
  {
    if v != w {
      StableInsideKids(lib, v.kids, w);
    }
  }

  lemma {:induction false} StableInsideKids(lib: Library, kids: Kids, w: Value)
    requires RereadKids(lib, kids) == kids && OccurrencesIn(kids, w) > 0
    ensures Stable(lib, w)
    decreases kids, 0
  {
    if Occurrences(kids.value, w) > 0 {
      StableInside(lib, kids.value, w);
    } else {
      StableInsideKids(lib, kids.rest, w);
    }
  }

  /** Of a stable document the definitions are the repeated containers themselves. */
  lemma StableDefines(lib: Library, v: Value, found: seq<Value>, defs: seq<Value>, indices: map<bytes, nat>)
    requires Stable(lib, v) && Defined(lib, v, found, defs, indices)
    ensures defs == found && Defines(v, defs, indices)
  {
    hide ToBytes, WellFormedValue, Occurrences, Reread;
    forall i | 0 <= i < |found| ensures defs[i] == found[i] && Repeated(v, found[i]) {
      assert found[i] in found;
      StableInside(lib, v, found[i]);
    }
    forall i | 0 <= i < |defs| ensures indices[ToBytes(defs[i])] == i {
      var j := indices[ToBytes(defs[i])];
      ToBytesInjective(defs[i], defs[j]);
    }
  }

  // ----- Replacing and expanding -----

  const MARK: bytes := [0x24, 0x74, 0x70, 0x5F, 0x72, 0x65, 0x66] // $tp_ref

  /** `["$tp_ref", n]`. */
  function Ref(n: nat): Value {
    Box(Arr, Kid([], Text(MARK), Kid([], Leaf(ToDecimal(n)), NoKids)))
  }

  lemma RefWellFormed(n: nat)
    ensures WellFormedValue(Ref(n)) && Ref(n).Box?
  {
    hide IsScalar;
    DecimalIsScalar(n);
    AsciiUtf8(MARK);
    var last := Kid([], Leaf(ToDecimal(n)), NoKids);
    assert WellFormedKids(Arr, last);
    assert WellFormedKids(Arr, Kid([], Text(MARK), last));
  }

  lemma RefLength(n: nat)
    ensures |ToBytes(Ref(n))| >= 8
  {
    hide Escape;
    EscapeMark();
    var last := Kid([], Leaf(ToDecimal(n)), NoKids);
    var kids := Kid([], Text(MARK), last);
    ElemsLonger(CompactKids(Arr, kids));
    assert Compact(Text(MARK)) == Str(EncodeString(MARK));
    assert CompactKids(Arr, kids).value == Compact(Text(MARK));
    assert Print(Str(EncodeString(MARK))) == EncodeString(MARK);
    assert Compact(Ref(n)) == Node(Arr, [], CompactKids(Arr, kids));
  }

  lemma ElemsLonger(elems: Elems)
    requires elems.Elem?
    ensures |Print(Node(Arr, [], elems))| >= |Print(elems.value)|
  {
    hide Print;
    NodeLength(elems);
    assert |PrintElems(elems)| >= |Print(elems.value)|;
  }

  lemma NodeLength(elems: Elems)
    requires elems.Elem?
    ensures |Print(Node(Arr, [], elems))| == |PrintElems(elems)| + 2
  {
    hide PrintElems;
  }

  lemma {:induction false} EscapeLength(s: bytes)
    ensures |Escape(s)| >= |s|
  {
    if s != [] {
      EscapeLength(s[1..]);
    }
  }

  lemma EscapeMark()
    ensures |EncodeString(MARK)| >= 9
  {
    EscapeLength(MARK);
  }

  lemma RefInjective(m: nat, n: nat)
    requires Ref(m) == Ref(n)
    ensures m == n
  {
    ToDecimalInjective(m, n);
  }

  function FactorValue(v: Value, indices: map<bytes, nat>, root: bool, work: u64, maxWork: u64): Option<(Value, u64)>
    decreases v, 1
  {
    var w := SatAdd(work, 1);
    if w > maxWork then None
    else if !root && ToBytes(v) in indices then Some((Ref(indices[ToBytes(v)]), w))
    else if v.Box? then
      match FactorKids(v.kids, indices, w, maxWork)
      case None => None
      case Some((kids, w')) => Some((Box(v.shape, kids), w'))
    else Some((v, w))
  }

  function FactorKids(kids: Kids, indices: map<bytes, nat>, work: u64, maxWork: u64): Option<(Kids, u64)>
    decreases kids, 0
  {
    if kids.NoKids? then Some((NoKids, work))
    else
      match FactorValue(kids.value, indices, false, work, maxWork)
      case None => None
      case Some((value, w)) =>
        match FactorKids(kids.rest, indices, w, maxWork)
        case None => None
        case Some((rest, w')) => Some((Kid(kids.key, value, rest), w'))
  }

  /** The factored form, whatever the budget. */
  function Factored(v: Value, indices: map<bytes, nat>, root: bool): Value
    decreases v, 1
  {
    if !root && ToBytes(v) in indices then Ref(indices[ToBytes(v)])
    else if v.Box? then Box(v.shape, FactoredKids(v.kids, indices))
    else v
  }

  function FactoredKids(kids: Kids, indices: map<bytes, nat>): Kids
    decreases kids, 0
  {
    if kids.NoKids? then NoKids
    else Kid(kids.key, Factored(kids.value, indices, false), FactoredKids(kids.rest, indices))
  }

  /** The values the pass visits: it does not look into what it replaces. */
  function Visited(v: Value, indices: map<bytes, nat>, root: bool): nat
    decreases v, 1
  {
    if v.Box? && (root || ToBytes(v) !in indices) then 1 + VisitedIn(v.kids, indices) else 1
  }

  function VisitedIn(kids: Kids, indices: map<bytes, nat>): nat
    decreases kids, 0
  {
    if kids.NoKids? then 0 else Visited(kids.value, indices, false) + VisitedIn(kids.rest, indices)
  }

  /** The pass succeeds exactly when the values it visits fit the budget, and charges one for each. */
  lemma {:induction false} FactorExact(v: Value, indices: map<bytes, nat>, root: bool, work: u64, maxWork: u64)
    requires work <= maxWork < U64_MAX
    ensures FactorValue(v, indices, root, work, maxWork)
            == if work + Visited(v, indices, root) <= maxWork
               then Some((Factored(v, indices, root), work + Visited(v, indices, root)))
               else None
    decreases v, 1
  {
    hide ToBytes, Ref;
    if v.Box? && (root || ToBytes(v) !in indices) && work < maxWork {
      FactorKidsExact(v.kids, indices, work + 1, maxWork);
    }
  }

  lemma {:induction false} FactorKidsExact(kids: Kids, indices: map<bytes, nat>, work: u64, maxWork: u64)
    requires work <= maxWork < U64_MAX
    ensures FactorKids(kids, indices, work, maxWork)
            == if work + VisitedIn(kids, indices) <= maxWork
               then Some((FactoredKids(kids, indices), work + VisitedIn(kids, indices)))
               else None
    decreases kids, 0
  {
    hide FactorValue, Factored, Visited;
    if kids.Kid? {
      FactorExact(kids.value, indices, false, work, maxWork);
      if work + Visited(kids.value, indices, false) <= maxWork {
        FactorKidsExact(kids.rest, indices, work + Visited(kids.value, indices, false), maxWork);
      }
    }
  }

  /** The index a value refers to, when it is a reference below `count`. */
  function RefIndex(v: Value, count: nat): (r: Option<nat>)
    ensures r.Some? ==> r.value < count && v == Ref(r.value)
    ensures r.None? ==> forall n: nat :: n < count ==> v != Ref(n)
  {
    if count == 0 then None
    else if v == Ref(count - 1) then Some(count - 1)
    else RefIndex(v, count - 1)
  }

  /** What a reader of the factored form does: every reference in range stands for its definition. */
  function Expand(v: Value, defs: seq<Value>): Value
    decreases v, 1
  {
    var n := RefIndex(v, |defs|);
    if n.Some? then defs[n.value]
    else if v.Box? then Box(v.shape, ExpandKids(v.kids, defs))
    else v
  }

  function ExpandKids(kids: Kids, defs: seq<Value>): Kids
    decreases kids, 0
  {
    if kids.NoKids? then NoKids else Kid(kids.key, Expand(kids.value, defs), ExpandKids(kids.rest, defs))
  }

  /** A literal in the input that survives factoring and would be read as a reference. */
  predicate Stray(v: Value, indices: map<bytes, nat>, count: nat, root: bool)
    decreases v, 1
  {
    if !root && ToBytes(v) in indices then false
    else RefIndex(v, count).Some? || (v.Box? && StrayIn(v.kids, indices, count))
  }

  predicate StrayIn(kids: Kids, indices: map<bytes, nat>, count: nat)
    decreases kids, 0
  {
    kids.Kid? && (Stray(kids.value, indices, count, false) || StrayIn(kids.rest, indices, count))
  }

  ghost predicate GoodIndex(defs: seq<Value>, indices: map<bytes, nat>) {
    && (forall i :: 0 <= i < |defs| ==> WellFormedValue(defs[i]) && defs[i].Box? && ToBytes(defs[i]) in indices)
    && (forall b :: b in indices ==> indices[b] < |defs| && ToBytes(defs[indices[b]]) == b)
  }

  predicate Flat(kids: Kids) {
    kids.Kid? ==> !kids.value.Box? && Flat(kids.rest)
  }

  lemma OnlyBoxesReplaced(v: Value, defs: seq<Value>, indices: map<bytes, nat>)
    requires GoodIndex(defs, indices) && WellFormedValue(v) && ToBytes(v) in indices
    ensures v == defs[indices[ToBytes(v)]] && v.Box?
  {
    hide ToBytes, WellFormedValue;
    ToBytesInjective(v, defs[indices[ToBytes(v)]]);
  }

  /** Containers stay containers and scalars stay themselves, so nothing becomes a reference by accident. */
  lemma FactorKeepsForm(v: Value, defs: seq<Value>, indices: map<bytes, nat>, root: bool)
    requires GoodIndex(defs, indices) && WellFormedValue(v)
    ensures var x := Factored(v, indices, root); x.Box? == v.Box? && (!v.Box? ==> x == v)
  {
    hide ToBytes, WellFormedValue;
    if ToBytes(v) in indices {
      OnlyBoxesReplaced(v, defs, indices);
    }
  }

  lemma {:induction false} FactorKeepsFlat(shape: Shape, kids: Kids, defs: seq<Value>, indices: map<bytes, nat>)
    requires GoodIndex(defs, indices) && WellFormedKids(shape, kids)
    ensures var kids' := FactoredKids(kids, indices);
            Flat(kids') == Flat(kids) && (Flat(kids) ==> kids' == kids)
    decreases kids
  {
    hide ToBytes, Factored, WellFormedValue;
    if kids.Kid? {
      FactorKeepsForm(kids.value, defs, indices, false);
      FactorKeepsFlat(shape, kids.rest, defs, indices);
    }
  }

  lemma RefIsFlat(n: nat)
    ensures Flat(Ref(n).kids)
  {
    var last := Kid([], Leaf(ToDecimal(n)), NoKids);
    assert Flat(last);
  }

  lemma FactorNotRef(v: Value, defs: seq<Value>, indices: map<bytes, nat>, root: bool)
    requires GoodIndex(defs, indices) && WellFormedValue(v) && (root || ToBytes(v) !in indices)
    ensures var x := Factored(v, indices, root);
            RefIndex(x, |defs|) == RefIndex(v, |defs|) && (RefIndex(v, |defs|).Some? ==> x == v)
  {
    hide ToBytes, RefIndex, Ref, Flat;
    var x := Factored(v, indices, root);
    if v.Box? {
      FactorKeepsFlat(v.shape, v.kids, defs, indices);
      var m, n := RefIndex(x, |defs|), RefIndex(v, |defs|);
      if m.Some? {
        RefIsFlat(m.value);
      }
      if n.Some? {
        RefIsFlat(n.value);
      }
    }
  }

  lemma RefIndexOfRef(n: nat, count: nat)
    requires n < count
    ensures RefIndex(Ref(n), count) == Some(n)
  {
    hide Ref;
    RefInjective(RefIndex(Ref(n), count).value, n);
  }

  /** Expanding undoes factoring exactly when no literal of the input is taken for a reference. */
  lemma {:induction false} ExpandFactor(v: Value, defs: seq<Value>, indices: map<bytes, nat>, root: bool)
    requires GoodIndex(defs, indices) && WellFormedValue(v)
    requires root ==> ToBytes(v) !in indices
    ensures Expand(Factored(v, indices, root), defs) == v <==> !Stray(v, indices, |defs|, root)
    decreases v, 1
  {
    hide ToBytes, RefIndex, Ref, WellFormedValue;
    if ToBytes(v) in indices {
      OnlyBoxesReplaced(v, defs, indices);
      RefIndexOfRef(indices[ToBytes(v)], |defs|);
    } else {
      FactorNotRef(v, defs, indices, root);
      if v.Box? && RefIndex(v, |defs|).None? {
        KidsWellFormed(v);
        ExpandFactorKids(v.shape, v.kids, defs, indices);
      }
    }
  }

  lemma {:induction false} ExpandFactorKids(shape: Shape, kids: Kids, defs: seq<Value>, indices: map<bytes, nat>)
    requires GoodIndex(defs, indices) && WellFormedKids(shape, kids)
    ensures ExpandKids(FactoredKids(kids, indices), defs) == kids <==> !StrayIn(kids, indices, |defs|)
    decreases kids, 0
  {
    hide ToBytes, RefIndex, WellFormedValue, Expand, Factored, Stray;
    if kids.Kid? {
      ExpandFactor(kids.value, defs, indices, false);
      ExpandFactorKids(shape, kids.rest, defs, indices);
    }
  }

  // ----- When a literal is taken for a reference -----

  /** The input holds, exactly once, a literal that reads as a reference to one of `count` definitions. */
  ghost predicate HoldsLoneRef(v: Value, count: nat) {
    exists n: nat :: n < count && Occurrences(v, Ref(n)) == 1
  }

  lemma DefinesGoodIndex(v: Value, defs: seq<Value>, indices: map<bytes, nat>)
    requires Defines(v, defs, indices)
    ensures GoodIndex(defs, indices)
    ensures WellFormedValue(v) ==> ToBytes(v) !in indices
  {
    hide ToBytes, WellFormedValue, Occurrences;
    forall i | 0 <= i < |defs|
      ensures Repeated(v, defs[i])
    {
      assert defs[i] in defs;
    }
    if WellFormedValue(v) && ToBytes(v) in indices {
      OnlyBoxesReplaced(v, defs, indices);
      OccurrencesSmaller(v, v);
    }
  }

  lemma {:induction false} StrayHolds(v: Value, indices: map<bytes, nat>, count: nat, root: bool) returns (n: nat)
    requires Stray(v, indices, count, root)
    requires root ==> ToBytes(v) !in indices
    ensures n < count && Occurrences(v, Ref(n)) > 0 && ToBytes(Ref(n)) !in indices
    decreases v, 1
  {
    hide ToBytes, RefIndex, Ref;
    if RefIndex(v, count).Some? {
      n := RefIndex(v, count).value;
      RefWellFormed(n);
      OccurrencesSmaller(v, v);
    } else {
      n := StrayHoldsIn(v.kids, indices, count);
    }
  }

  lemma {:induction false} StrayHoldsIn(kids: Kids, indices: map<bytes, nat>, count: nat) returns (n: nat)
    requires StrayIn(kids, indices, count)
    ensures n < count && OccurrencesIn(kids, Ref(n)) > 0 && ToBytes(Ref(n)) !in indices
    decreases kids, 0
  {
    hide ToBytes, RefIndex, Ref, Stray, Occurrences;
    if Stray(kids.value, indices, count, false) {
      n := StrayHolds(kids.value, indices, count, false);
    } else {
      n := StrayHoldsIn(kids.rest, indices, count);
    }
  }

  /** A literal that is not replaced, and lies in nothing that is, survives. */
  lemma {:induction false} LoneIsStray(top: Value, v: Value, defs: seq<Value>, indices: map<bytes, nat>, n: nat)
    requires Defines(top, defs, indices) && WellFormedValue(v) && n < |defs|
    requires Occurrences(top, Ref(n)) == 1 && Occurrences(v, Ref(n)) > 0
    ensures Stray(v, indices, |defs|, false)
    decreases v, 1
  {
    hide ToBytes, RefIndex, Ref, WellFormedValue;
    DefinesGoodIndex(top, defs, indices);
    if ToBytes(v) in indices {
      OnlyBoxesReplaced(v, defs, indices);
      assert v in defs;
      assert Repeated(top, v);
      OccurrencesInside(top, v, Ref(n));
      assert false;
    } else if v == Ref(n) {
    } else {
      KidsWellFormed(v);
      LoneIsStrayIn(top, v.shape, v.kids, defs, indices, n);
    }
  }

  lemma {:induction false} LoneIsStrayIn(top: Value, shape: Shape, kids: Kids, defs: seq<Value>,
                                         indices: map<bytes, nat>, n: nat)
    requires Defines(top, defs, indices) && WellFormedKids(shape, kids) && n < |defs|
    requires Occurrences(top, Ref(n)) == 1 && OccurrencesIn(kids, Ref(n)) > 0
    ensures StrayIn(kids, indices, |defs|)
    decreases kids, 0
  {
    hide ToBytes, RefIndex, Ref, WellFormedValue, Stray, Occurrences, Defines;
    if Occurrences(kids.value, Ref(n)) > 0 {
      LoneIsStray(top, kids.value, defs, indices, n);
    } else {
      LoneIsStrayIn(top, shape, kids.rest, defs, indices, n);
    }
  }

  /** The references of the factored form can be expanded back exactly when the input holds no lone literal reference. */
  lemma FactoringInvertible(v: Value, defs: seq<Value>, indices: map<bytes, nat>)
    requires Defines(v, defs, indices) && WellFormedValue(v)
    ensures Expand(Factored(v, indices, true), defs) == v <==> !HoldsLoneRef(v, |defs|)
  {
    hide ToBytes, RefIndex, Ref, WellFormedValue, Factored, Expand, Occurrences;
    DefinesGoodIndex(v, defs, indices);
    ExpandFactor(v, defs, indices, true);
    if Stray(v, indices, |defs|, true) {
      var n := StrayHolds(v, indices, |defs|, true);
      RefWellFormed(n);
      RefLength(n);
      assert !Repeated(v, Ref(n));
      assert Occurrences(v, Ref(n)) == 1;
    }
    if HoldsLoneRef(v, |defs|) {
      var n: nat :| n < |defs| && Occurrences(v, Ref(n)) == 1;
      LoneIsStray(v, v, defs, indices, n);
    }
  }

  // ----- Numbers that are read back differently -----

  /** References are read back as they are, and nothing else is read as one. */
  lemma RefRead(lib: Library, x: Value, n: u64)
    ensures Stable(lib, Ref(n))
    ensures Reread(lib, x) == Ref(n) ==> x == Ref(n)
  {
    hide ToDecimal, IsNumber;
    DecimalPlain(n);
    var last := Kid([], Leaf(ToDecimal(n)), NoKids);
    assert RereadKids(lib, last) == last;
    assert RereadKids(lib, Kid([], Text(MARK), last)) == Kid([], Text(MARK), last);
    if Reread(lib, x) == Ref(n) {
      FirstRead(lib, x.kids, [], Text(MARK), last);
      FirstRead(lib, x.kids.rest, [], Leaf(ToDecimal(n)), NoKids);
      PlainRead(lib, x.kids.rest.value.token, n);
    }
  }

  lemma FirstRead(lib: Library, kids: Kids, key: bytes, value: Value, rest: Kids)
    requires RereadKids(lib, kids) == Kid(key, value, rest)
    ensures kids.Kid? && kids.key == key && RereadKids(lib, kids.rest) == rest
    ensures value.Text? ==> kids.value == value
    ensures value.Leaf? ==> kids.value.Leaf? && Canonical(lib, kids.value.token) == value.token
    ensures rest.NoKids? ==> kids.rest.NoKids?
  {
  }

  lemma DecimalPlain(n: u64)
    ensures Unsigned64(ToDecimal(n)) && IsNumber(ToDecimal(n))
  {
    ToDecimalDigits(n);
    AllDigitRun(ToDecimal(n));
    DecimalIsScalar(n);
    assert Digit(ToDecimal(n)[0]);
  }

  lemma PlainRead(lib: Library, token: bytes, n: u64)
    requires Canonical(lib, token) == ToDecimal(n)
    ensures token == ToDecimal(n)
  {
    hide ToDecimal, IsNumber, Unsigned64;
    DecimalPlain(n);
  }

  /** Whatever comes back as it was written has only stable numbers. */
  lemma {:induction false} BackMeansStable(lib: Library, v: Value, defs: seq<Value>, indices: map<bytes, nat>,
                                           root: bool)
    requires GoodIndex(defs, indices) && WellFormedValue(v) && |defs| <= U64_MAX
    requires Expand(Reread(lib, Factored(v, indices, root)), RereadAll(lib, defs)) == v
    ensures Stable(lib, v)
    decreases v, 1
  {
    hide ToBytes, RefIndex, Ref, WellFormedValue;
    var again := RereadAll(lib, defs);
    if !root && ToBytes(v) in indices {
      var n := indices[ToBytes(v)];
      OnlyBoxesReplaced(v, defs, indices);
      RefRead(lib, v, n);
      RefIndexOfRef(n, |defs|);
    } else if v.Box? {
      KidsWellFormed(v);
      FactoredWellFormed(v, defs, indices, root);
      var x := Factored(v, indices, root);
      var n := RefIndex(Reread(lib, x), |defs|);
      if n.Some? {
        RefRead(lib, x, n.value);
        RefIndexOfRef(n.value, |defs|);
        FactorNotRef(v, defs, indices, root);
      } else {
        BackKidsMeansStable(lib, v.shape, v.kids, defs, indices);
      }
    } else {
      ScalarNotRef(Reread(lib, v), |defs|);
    }
  }

  lemma ScalarNotRef(v: Value, count: nat)
    requires !v.Box?
    ensures RefIndex(v, count).None?
  {
  }

  lemma {:induction false} BackKidsMeansStable(lib: Library, shape: Shape, kids: Kids, defs: seq<Value>,
                                               indices: map<bytes, nat>)
    requires GoodIndex(defs, indices) && WellFormedKids(shape, kids) && |defs| <= U64_MAX
    requires ExpandKids(RereadKids(lib, FactoredKids(kids, indices)), RereadAll(lib, defs)) == kids
    ensures RereadKids(lib, kids) == kids
    decreases kids, 0
  {
    hide ToBytes, RefIndex, Ref, WellFormedValue, Factored, Expand, Reread;
    if kids.Kid? {
      BackMeansStable(lib, kids.value, defs, indices, false);
      StableValue(lib, kids.value);
      BackKidsMeansStable(lib, shape, kids.rest, defs, indices);
    }
  }

  lemma StableValue(lib: Library, v: Value)
    requires Stable(lib, v)
    ensures Reread(lib, v) == v
  {
  }

  lemma {:induction false} FactoredStable(lib: Library, v: Value, count: nat, indices: map<bytes, nat>, root: bool)
    requires Stable(lib, v) && count <= U64_MAX && forall b :: b in indices ==> indices[b] < count
    ensures Stable(lib, Factored(v, indices, root))
    decreases v, 1
  {
    hide ToBytes, Ref;
    if !root && ToBytes(v) in indices {
      RefWellFormed(indices[ToBytes(v)]);
      RefRead(lib, Ref(indices[ToBytes(v)]), indices[ToBytes(v)]);
    } else if v.Box? {
      FactoredKidsStable(lib, v.kids, count, indices);
    }
  }

  lemma {:induction false} FactoredKidsStable(lib: Library, kids: Kids, count: nat, indices: map<bytes, nat>)
    requires RereadKids(lib, kids) == kids && count <= U64_MAX && forall b :: b in indices ==> indices[b] < count
    ensures RereadKids(lib, FactoredKids(kids, indices)) == FactoredKids(kids, indices)
    decreases kids, 0
  {
    hide ToBytes, Factored;
    if kids.Kid? {
      FactoredStable(lib, kids.value, count, indices, false);
      FactoredKidsStable(lib, kids.rest, count, indices);
    }
  }

  // ----- The compressor -----

  const TPJ3: bytes := [0x54, 0x50, 0x4A, 0x33]

  /** The tuple `("TPJ3", definitions, transformed)`. */
  function Envelope(defs: seq<Value>, x: Value): Value {
    Box(Arr, ToKids([Text(TPJ3), Box(Arr, ToKids(defs)), x]))
  }

  /** What a reader of the candidate does. */
  function Unfactor(lib: Library, candidate: bytes): Option<Value> {
    match FromBytes(lib, candidate)
    case None => None
    case Some(v) =>
      if !v.Box? then None
      else
        var parts := FromKids(v.kids);
        if |parts| == 3 && parts[1].Box? then Some(Expand(parts[2], FromKids(parts[1].kids))) else None
  }

  lemma {:induction false} FactoredWellFormed(v: Value, defs: seq<Value>, indices: map<bytes, nat>, root: bool)
    requires GoodIndex(defs, indices) && WellFormedValue(v)
    ensures WellFormedValue(Factored(v, indices, root))
    decreases v, 1
  {
    hide ToBytes, Ref, IsScalar, Utf8;
    if !root && ToBytes(v) in indices {
      RefWellFormed(indices[ToBytes(v)]);
    } else if v.Box? {
      FactoredKidsWellFormed(v.shape, v.kids, defs, indices);
    }
  }

  lemma {:induction false} FactoredKidsWellFormed(shape: Shape, kids: Kids, defs: seq<Value>,
                                                  indices: map<bytes, nat>)
    requires GoodIndex(defs, indices) && WellFormedKids(shape, kids)
    ensures WellFormedKids(shape, FactoredKids(kids, indices))
    decreases kids, 0
  {
    hide ToBytes, Factored, Utf8, WellFormedValue, Less;
    if kids.Kid? {
      FactoredWellFormed(kids.value, defs, indices, false);
      FactoredKidsWellFormed(shape, kids.rest, defs, indices);
    }
  }

  lemma EnvelopeWellFormed(defs: seq<Value>, x: Value)
    requires WellFormedValue(x) && forall i :: 0 <= i < |defs| ==> WellFormedValue(defs[i])
    ensures WellFormedValue(Envelope(defs, x))
  {
    hide Utf8, IsScalar;
    FromToKids(defs);
    AsciiUtf8(TPJ3);
    FromToKids([Text(TPJ3), Box(Arr, ToKids(defs)), x]);
  }

  lemma EnvelopeReread(lib: Library, defs: seq<Value>, x: Value)
    ensures Reread(lib, Envelope(defs, x)) == Envelope(RereadAll(lib, defs), Reread(lib, x))
  {
    hide RereadAll, ToKids;
    ToKidsReread(lib, defs);
    var parts := [Text(TPJ3), Box(Arr, ToKids(defs)), x];
    ToKidsReread(lib, parts);
    assert RereadAll(lib, parts) == [Text(TPJ3), Box(Arr, ToKids(RereadAll(lib, defs))), Reread(lib, x)];
  }

  lemma UnfactorEnvelope(lib: Library, defs: seq<Value>, x: Value)
    requires WellFormedValue(x) && forall i :: 0 <= i < |defs| ==> WellFormedValue(defs[i])
    ensures Unfactor(lib, ToBytes(Envelope(defs, x))) == Some(Expand(Reread(lib, x), RereadAll(lib, defs)))
  {
    hide ToBytes, FromBytes, Expand, WellFormedValue, Reread, RereadAll;
    EnvelopeWellFormed(defs, x);
    FromToBytes(lib, Envelope(defs, x));
    EnvelopeReread(lib, defs, x);
    var again := RereadAll(lib, defs);
    FromToKids(again);
    FromToKids([Text(TPJ3), Box(Arr, ToKids(again)), Reread(lib, x)]);
  }

  lemma DefinedGoodIndex(lib: Library, v: Value, found: seq<Value>, defs: seq<Value>, indices: map<bytes, nat>)
    requires Defined(lib, v, found, defs, indices)
    ensures GoodIndex(defs, indices)
  {
    hide ToBytes, WellFormedValue, Occurrences, Reread;
    forall i | 0 <= i < |defs|
      ensures WellFormedValue(defs[i]) && defs[i].Box?
    {
      assert found[i] in found;
      RereadWellFormed(lib, found[i]);
      RereadBox(lib, found[i]);
    }
  }

  lemma RereadBox(lib: Library, v: Value)
    ensures Reread(lib, v).Box? == v.Box?
  {
  }

  /** The candidate. */
  function FactoredText(v: Value, defs: seq<Value>, indices: map<bytes, nat>): bytes {
    ToBytes(Envelope(defs, Factored(v, indices, true)))
  }

  /**
    A reader of the candidate gets the value back exactly when its numbers are read back from their text and it holds no
    lone literal reference.
   */
  lemma CandidateReads(lib: Library, v: Value, found: seq<Value>, defs: seq<Value>, indices: map<bytes, nat>)
    requires Defined(lib, v, found, defs, indices) && WellFormedValue(v) && |defs| <= U64_MAX
    ensures Unfactor(lib, FactoredText(v, defs, indices)) == Some(v)
            <==> Stable(lib, v) && !HoldsLoneRef(v, |defs|)
  {
    hide ToBytes, WellFormedValue, Factored, Unfactor, Expand, Occurrences, Defined, Defines, Reread, HoldsLoneRef;
    DefinedGoodIndex(lib, v, found, defs, indices);
    FactoredWellFormed(v, defs, indices, true);
    UnfactorEnvelope(lib, defs, Factored(v, indices, true));
    if Unfactor(lib, FactoredText(v, defs, indices)) == Some(v) {
      BackMeansStable(lib, v, defs, indices, true);
    }
    if Stable(lib, v) {
      StableDefines(lib, v, found, defs, indices);
      DefinitionsStable(lib, v, found, defs, indices);
      FactoredStable(lib, v, |defs|, indices, true);
      StableValue(lib, Factored(v, indices, true));
      FactoringInvertible(v, defs, indices);
    }
  }

  lemma DefinitionsStable(lib: Library, v: Value, found: seq<Value>, defs: seq<Value>, indices: map<bytes, nat>)
    requires Stable(lib, v) && Defined(lib, v, found, defs, indices)
    ensures RereadAll(lib, defs) == defs
  {
    hide ToBytes, WellFormedValue, Occurrences, Reread;
    StableDefines(lib, v, found, defs, indices);
  }

  /** Counting the containers of the document fits both budgets: every distinct one is retained once. */
  ghost predicate CountFits(v: Value, limits: Limits) {
    Cost(v) <= limits.maxWork && Size(Encodings(v)) <= limits.maxMemory
  }

  lemma CountFitsExactly(v: Value, limits: Limits)
    ensures CountFits(v, limits) <==> Fits(Tally(map[], 0, 0), Cost(v), Encodings(v), limits)
  {
    hide Size, Encodings, Cost;
    var none := Tally(map[], 0, 0);
    assert Encodings(v) - none.freq.Keys == Encodings(v);
  }

  lemma CountedWhole(v: Value, t: Tally)
    requires Counted(Tally(map[], 0, 0), t, v) && KeysAreBoxes(t.freq)
    ensures CountsOf(t.freq, v)
  {
    hide ToBytes, WellFormedValue, Occurrences;
  }

  /**
    `JsonRepeatedSubtree::transform`; `order` is the iteration order of the ordered map. With `found` the repeated
    containers, it succeeds exactly when counting and factoring fit their budgets, something repeats, the library accepts
    the definitions, and the result is in bounds.
   */
  method FactorJson(input: bytes, limits: Limits, lib: Library, order: set<bytes> -> seq<bytes>)
    returns (r: Result<Transform, TransformError>, ghost found: seq<Value>, ghost defs: seq<Value>,
             ghost indices: map<bytes, nat>)
    requires |input| <= U64_MAX && Reachable(limits)
    requires forall keys :: Enumerates(order(keys), keys)
    ensures Verdict(input, limits, lib).Err? ==> r == Err(Verdict(input, limits, lib).error)
    ensures Verdict(input, limits, lib).Ok? ==> FromBytes(lib, input).Some?
    ensures Verdict(input, limits, lib).Ok? && !CountFits(FromBytes(lib, input).value, limits) ==>
              r == Err(ResourceLimit)
    ensures Verdict(input, limits, lib).Ok? && CountFits(FromBytes(lib, input).value, limits) ==>
              var v := FromBytes(lib, input).value;
              && Repeats(v, found)
              && (r == Err(Internal) <==> !AllAccepted(lib, found))
              && (r == Err(NotApplicable) <==> found == [])
              && (AllAccepted(lib, found) ==> Defined(lib, v, found, defs, indices))
              && (r.Ok? <==> && AllAccepted(lib, found) && found != [] && Visited(v, indices, true) <= limits.maxWork
                             && CopyFits(FactoredText(v, defs, indices), input, limits))
              && r != Err(InvalidInput)
    ensures r.Ok? ==>
              var v := FromBytes(lib, input).value;
              && CountFits(v, limits)
              && r.value == Transform(FactoredText(v, defs, indices), input)
              && (Unfactor(lib, r.value.candidate) == Some(v) <==> Stable(lib, v) && !HoldsLoneRef(v, |defs|))
  {
    hide FromBytes, ToBytes, WellFormedValue, Verdict, FactorValue, Unfactor, Occurrences, HoldsLoneRef, Counted,
         KeysAreBoxes, Bounded, Fits, CountFits, Cost, Encodings, Stable, CopyFits, AllAccepted, Repeats, Indexes,
         RereadAll, Charged, Visited, Factored, FactoredText, CountsOf, Enumerates;
    found, defs, indices := [], [], map[];
    var valid, _ := ValidateJson(input, limits, lib);
    if valid.Err? {
      return Err(valid.error), found, defs, indices;
    }
    ValidReads(input, limits, lib);
    var v := FromBytes(lib, input).value;
    CountFitsExactly(v, limits);
    EmptyTally();
    var tally := CollectSubtrees(v, Tally(map[], 0, 0), limits);
    if tally.None? {
      return Err(ResourceLimit), found, defs, indices;
    }
    CountedWhole(v, tally.value);
    BoundedKeys(tally.value);
    var definitions, repeats := Definitions(v, tally.value.freq, order(tally.value.freq.Keys), lib);
    found := repeats;
    NoneRejected(lib);
    if definitions.None? {
      return Err(Internal), found, defs, indices;
    }
    defs := definitions.value;
    var index := Index(definitions.value);
    indices := index;
    if definitions.value == [] {
      return Err(NotApplicable), found, defs, indices;
    }
    FactorExact(v, index, true, 0, limits.maxWork);
    var factored := FactorValue(v, index, true, 0, limits.maxWork);
    if factored.None? {
      return Err(ResourceLimit), found, defs, indices;
    }
    CandidateReads(lib, v, found, defs, indices);
    TextOf(v, defs, indices);
    return WithCopy(ToBytes(Envelope(definitions.value, factored.value.0)), input, limits), found, defs, indices;
  }

  lemma TextOf(v: Value, defs: seq<Value>, indices: map<bytes, nat>)
    ensures FactoredText(v, defs, indices) == ToBytes(Envelope(defs, Factored(v, indices, true)))
  {
  }

  lemma EmptyTally()
    ensures Bounded(Tally(map[], 0, 0)) && KeysAreBoxes(map[])
  {
  }

  lemma BoundedKeys(t: Tally)
    requires Bounded(t)
    ensures |t.freq| <= U64_MAX
  {
  }

  lemma NoneRejected(lib: Library)
    ensures AllAccepted(lib, [])
  {
  }

  lemma ValidReads(input: bytes, limits: Limits, lib: Library)
    requires Verdict(input, limits, lib).Ok?
    ensures FromBytes(lib, input).Some? && WellFormedValue(FromBytes(lib, input).value)
  {
    hide Parse, ValueOf, Check, WellFormedValue;
    PrintParseDocument(input);
    ValueOfWellFormed(lib, Parse(input).value.value);
  }
}
