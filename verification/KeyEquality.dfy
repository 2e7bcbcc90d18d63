/** The observer of cache keys: it keeps raw keys to itself and hands out equality classes, one locked step at a time. */
module KeyEquality {
  import opened Base

  /** What one request body shows about its key. */
  datatype Observation = Malformed | Absent | NullKey | InvalidType | Present(key: string)

  datatype Status = IsMalformed | IsAbsent | IsNull | IsInvalidType | IsPresent

  function StatusOf(o: Observation): Status {
    match o
    case Malformed => IsMalformed
    case Absent => IsAbsent
    case NullKey => IsNull
    case InvalidType => IsInvalidType
    case Present(_) => IsPresent
  }

  datatype Record = Record(arm: Option<string>, round: Option<int>, index: nat, status: Status, keyClass: Option<nat>)

  /** The steps that take the lock. */
  datatype Step = Begin(arm: string, round: int) | Observe(seen: Observation)

  datatype State = State(keys: seq<string>, records: seq<Record>, arm: Option<string>, round: Option<int>, index: nat)

  const INITIAL: State := State([], [], None, None, 0)

  /** `list.index`. */
  function IndexOf(keys: seq<string>, key: string): (r: Option<nat>)
    ensures r.Some? ==> r.value < |keys| && keys[r.value] == key
    ensures r.None? ==> key !in keys
  {
    if keys == [] then None
    else if keys[0] == key then Some(0)
    else
      match IndexOf(keys[1..], key)
      case None => None
      case Some(i) => Some(i + 1)
  }

  function Next(s: State, step: Step): State {
    match step
    case Begin(arm, round) => s.(arm := Some(arm), round := Some(round), index := 0)
    case Observe(o) =>
      var found := if o.Present? then IndexOf(s.keys, o.key) else None;
      var keyClass := if !o.Present? then None else if found.Some? then found else Some(|s.keys|);
      State(
        if o.Present? && found.None? then s.keys + [o.key] else s.keys,
        s.records + [Record(s.arm, s.round, s.index, StatusOf(o), keyClass)],
        s.arm, s.round, s.index + 1)
  }

  /** Any interleaving of the locked steps is a sequence of them. */
  function Run(steps: seq<Step>): State {
    if steps == [] then INITIAL else Next(Run(steps[..|steps| - 1]), steps[|steps| - 1])
  }

  /** The observations of a run, in order. */
  function Log(steps: seq<Step>): seq<Observation> {
    if steps == [] then []
    else
      var last := steps[|steps| - 1];
      Log(steps[..|steps| - 1]) + if last.Observe? then [last.seen] else []
  }

  // ----- The object -----

  class EqualityState {
    var keys: seq<string>
    var currentArm: Option<string>
    var currentRound: Option<int>
    var requestIndex: nat
    var records: seq<Record>
    /** Every step taken so far. */
    ghost var history: seq<Step>

    ghost function Current(): State
      reads this
    {
      State(keys, records, currentArm, currentRound, requestIndex)
    }

    ghost predicate Valid()
      reads this
    {
      Current() == Run(history)
    }

    constructor ()
      ensures Valid() && history == [] && Current() == INITIAL
    {
      keys, records := [], [];
      currentArm, currentRound := None, None;
      requestIndex := 0;
      history := [];
    }

    method BeginRun(arm: string, round: int)
      requires Valid()
      modifies this
      ensures Valid() && history == old(history) + [Begin(arm, round)]
      ensures Current() == Next(old(Current()), Begin(arm, round))
    {
      hide Run, Log, IndexOf;
      currentArm, currentRound, requestIndex := Some(arm), Some(round), 0;
      history := history + [Begin(arm, round)];
      RunLast(old(history), Begin(arm, round));
    }

    method Observed(o: Observation)
      requires Valid()
      modifies this
      ensures Valid() && history == old(history) + [Observe(o)]
      ensures Current() == Next(old(Current()), Observe(o))
    {
      hide Run, Log, IndexOf;
      var keyClass: Option<nat> := None;
      if o.Present? {
        keyClass := IndexOf(keys, o.key);
        if keyClass.None? {
          keyClass := Some(|keys|);
          keys := keys + [o.key];
        }
      }
      records := records + [Record(currentArm, currentRound, requestIndex, StatusOf(o), keyClass)];
      requestIndex := requestIndex + 1;
      history := history + [Observe(o)];
      RunLast(old(history), Observe(o));
    }
  }

  lemma RunLast(steps: seq<Step>, step: Step)
    ensures Run(steps + [step]) == Next(Run(steps), step)
    ensures Log(steps + [step]) == Log(steps) + if step.Observe? then [step.seen] else []
  {
    assert (steps + [step])[..|steps|] == steps;
  }

  // ----- Classes are keys -----

  predicate Distinct(keys: seq<string>) {
    forall i, j :: 0 <= i < j < |keys| ==> keys[i] != keys[j]
  }

  /** Each record tells what was seen, and its class is the position of its key among the distinct keys. */
  predicate Faithful(s: State, log: seq<Observation>) {
    && |s.records| == |log| && Distinct(s.keys)
    && forall i :: 0 <= i < |log| ==>
      && s.records[i].status == StatusOf(log[i])
      && (log[i].Present? <==> s.records[i].keyClass.Some?)
      && (log[i].Present? ==>
            s.records[i].keyClass.value < |s.keys| && s.keys[s.records[i].keyClass.value] == log[i].key)
  }

  ghost predicate Uses(s: State, n: nat, c: nat)
    requires n <= |s.records|
  {
    exists i :: 0 <= i < n && s.records[i].keyClass == Some(c)
  }

  /** Every class is used, and a class is first used only after all smaller ones. */
  ghost predicate Dense(s: State) {
    && (forall c :: 0 <= c < |s.keys| ==> Uses(s, |s.records|, c))
    && forall i, c :: 0 <= i < |s.records| && s.records[i].keyClass.Some? && 0 <= c < s.records[i].keyClass.value ==>
      Uses(s, i, c)
  }

  lemma FaithfulNext(s: State, log: seq<Observation>, step: Step)
    requires Faithful(s, log)
    ensures Faithful(Next(s, step), if step.Observe? then log + [step.seen] else log)
  {
  }

  lemma DenseNext(s: State, step: Step)
    requires Dense(s)
    ensures Dense(Next(s, step))
  {
    var t := Next(s, step);
    forall n: nat, c: nat | n <= |s.records| && Uses(s, n, c) ensures Uses(t, n, c) {
      var i :| 0 <= i < n && s.records[i].keyClass == Some(c);
      assert t.records[i].keyClass == Some(c);
    }
    forall c: nat | c < |t.keys| ensures Uses(t, |t.records|, c) {
      if c < |s.keys| {
        assert Uses(s, |s.records|, c);
        var i :| 0 <= i < |s.records| && s.records[i].keyClass == Some(c);
        assert t.records[i].keyClass == Some(c);
      } else {
        assert t.records[|s.records|].keyClass == Some(c);
      }
    }
    forall i: nat, c: nat | i < |t.records| && t.records[i].keyClass.Some? && c < t.records[i].keyClass.value
      ensures Uses(t, i, c)
    {
      if i < |s.records| {
        assert t.records[i] == s.records[i];
        assert Uses(s, i, c);
      } else {
        assert Uses(s, |s.records|, c);
      }
    }
  }

  /** After any sequence of steps the records are faithful and the classes dense in first-seen order. */
  lemma {:induction false} RunFaithful(steps: seq<Step>)
    ensures Faithful(Run(steps), Log(steps)) && Dense(Run(steps))
  {
    hide Next, Dense;
    if steps == [] {
      InitialDense();
    } else {
      var front := steps[..|steps| - 1];
      RunFaithful(front);
      FaithfulNext(Run(front), Log(front), steps[|steps| - 1]);
      DenseNext(Run(front), steps[|steps| - 1]);
      assert Log(front) + [] == Log(front);
    }
  }

  lemma InitialDense()
    ensures Dense(INITIAL)
  {
  }

  /** Two present records share a class exactly when their keys are equal. */
  lemma ClassIffKey(steps: seq<Step>, i: nat, j: nat)
    requires i < |Log(steps)| && j < |Log(steps)| && Log(steps)[i].Present? && Log(steps)[j].Present?
    ensures |Run(steps).records| == |Log(steps)|
    ensures Run(steps).records[i].keyClass == Run(steps).records[j].keyClass <==> Log(steps)[i].key == Log(steps)[j].key
  {
    hide Run, Log, Dense;
    RunFaithful(steps);
  }
}
