/** Removal of structurally empty object fields, with its work budget and its count of omitted fields. */
module StripFields {
  import opened Base
  import opened JsonGrammar
  import opened Values

  // ----- What is removed -----

  /** null, "", [] and {}. */
  predicate IsEmpty(v: Value) {
    v == Leaf(NULL) || v == Text([]) || (v.Box? && v.kids.NoKids?)
  }

  /** One pass: a field is judged before its own fields are stripped. */
  function Stripped(v: Value): Value
    decreases v, 1
  {
    if v.Box? then Box(v.shape, StrippedKids(v.shape, v.kids)) else v
  }

  function StrippedKids(shape: Shape, kids: Kids): Kids
    decreases kids, 0
  {
    if kids.NoKids? then NoKids
    else if shape.Obj? && IsEmpty(kids.value) then StrippedKids(shape, kids.rest)
    else Kid(kids.key, Stripped(kids.value), StrippedKids(shape, kids.rest))
  }

  /** `strip_empty_fields`, threading the work and the omitted fields; `None` is the resource limit. */
  function StripEmpty(v: Value, work: u64, maxWork: u64, omitted: u64): Option<(Value, u64, u64)>
    decreases v, 1
  {
    var w := SatAdd(work, 1);
    if w > maxWork then None
    else if v.Box? then
      match StripKids(v.shape, v.kids, w, maxWork, omitted)
      case None => None
      case Some((kids, w', o')) => Some((Box(v.shape, kids), w', o'))
    else Some((v, w, omitted))
  }

  function StripKids(shape: Shape, kids: Kids, work: u64, maxWork: u64, omitted: u64): Option<(Kids, u64, u64)>
    decreases kids, 0
  {
    if kids.NoKids? then Some((NoKids, work, omitted))
    else if shape.Obj? && IsEmpty(kids.value) then StripKids(shape, kids.rest, work, maxWork, SatAdd(omitted, 1))
    else
      match StripEmpty(kids.value, work, maxWork, omitted)
      case None => None
      case Some((value, w, o)) =>
        match StripKids(shape, kids.rest, w, maxWork, o)
        case None => None
        case Some((rest, w', o')) => Some((Kid(kids.key, value, rest), w', o'))
  }

  // ----- Conservation -----

  /** Object fields, at any depth. */
  function Fields(v: Value): nat
    decreases v, 1
  {
    if v.Box? then FieldsIn(v.shape, v.kids) else 0
  }

  function FieldsIn(shape: Shape, kids: Kids): nat
    decreases kids, 0
  {
    if kids.NoKids? then 0
    else (if shape.Obj? then 1 else 0) + Fields(kids.value) + FieldsIn(shape, kids.rest)
  }

  lemma {:induction false} FewerFields(v: Value)
    ensures Fields(Stripped(v)) <= Fields(v)
    decreases v, 1
  {
    if v.Box? {
      FewerFieldsIn(v.shape, v.kids);
    }
  }

  lemma {:induction false} FewerFieldsIn(shape: Shape, kids: Kids)
    ensures FieldsIn(shape, StrippedKids(shape, kids)) <= FieldsIn(shape, kids)
    decreases kids, 0
  {
    if kids.Kid? {
      FewerFields(kids.value);
      FewerFieldsIn(shape, kids.rest);
    }
  }

  lemma EmptyFields(v: Value)
    requires IsEmpty(v)
    ensures Fields(v) == 0
  {
    if v.Box? {
      assert FieldsIn(v.shape, NoKids) == 0;
    }
  }

  /**
    The pass succeeds exactly when the output's node count fits the budget; the work then is that count, and the
    fields omitted are exactly those the output lacks.
   */
  lemma {:induction false} StripExact(v: Value, work: u64, maxWork: u64, omitted: u64)
    requires maxWork < U64_MAX && work <= maxWork && omitted + Fields(v) <= U64_MAX
    ensures Fields(Stripped(v)) <= Fields(v)
    ensures var w := work + Nodes(Stripped(v));
            StripEmpty(v, work, maxWork, omitted)
            == if w <= maxWork then Some((Stripped(v), w, omitted + (Fields(v) - Fields(Stripped(v))))) else None
    decreases v, 1
  {
    FewerFields(v);
    if v.Box? && work + 1 <= maxWork {
      StripKidsExact(v.shape, v.kids, work + 1, maxWork, omitted);
    }
  }

  lemma {:induction false} StripKidsExact(shape: Shape, kids: Kids, work: u64, maxWork: u64, omitted: u64)
    requires maxWork < U64_MAX && work <= maxWork && omitted + FieldsIn(shape, kids) <= U64_MAX
    ensures FieldsIn(shape, StrippedKids(shape, kids)) <= FieldsIn(shape, kids)
    ensures var w := work + NodesIn(StrippedKids(shape, kids));
            StripKids(shape, kids, work, maxWork, omitted)
            == if w <= maxWork then
                 Some((StrippedKids(shape, kids), w,
                       omitted + (FieldsIn(shape, kids) - FieldsIn(shape, StrippedKids(shape, kids)))))
               else None
    decreases kids, 0
  {
    hide StripEmpty, Nodes, Fields, Stripped;
    FewerFieldsIn(shape, kids);
    if kids.Kid? {
      if shape.Obj? && IsEmpty(kids.value) {
        EmptyFields(kids.value);
      }
      FewerFields(kids.value);
      FewerFieldsIn(shape, kids.rest);
      if shape.Obj? && IsEmpty(kids.value) {
        StripKidsExact(shape, kids.rest, work, maxWork, omitted + 1);
      } else {
        StripExact(kids.value, work, maxWork, omitted);
        var w := work + Nodes(Stripped(kids.value));
        if w <= maxWork {
          StripKidsExact(shape, kids.rest, w, maxWork, omitted + (Fields(kids.value) - Fields(Stripped(kids.value))));
        }
      }
    }
  }

  // ----- Paths -----

  /** One step into a container: a key of an object, a position of an array. */
  datatype Move = ByKey(key: bytes) | ByIndex(index: nat)

  function At(v: Value, path: seq<Move>): Option<Value>
    decreases |path|
  {
    if path == [] then Some(v)
    else if !v.Box? then None
    else
      match Child(v.shape, v.kids, path[0])
      case None => None
      case Some(child) => At(child, path[1..])
  }

  function Child(shape: Shape, kids: Kids, move: Move): Option<Value>
    decreases kids
  {
    if kids.NoKids? then None
    else if shape.Obj? then
      if move == ByKey(kids.key) then Some(kids.value) else Child(shape, kids.rest, move)
    else if move == ByIndex(0) then Some(kids.value)
    else if move.ByIndex? && move.index > 0 then Child(shape, kids.rest, ByIndex(move.index - 1))
    else None
  }

  predicate HasKey(kids: Kids, key: bytes) {
    kids.Kid? && (kids.key == key || HasKey(kids.rest, key))
  }

  /** Object keys are unique, as in the library's maps. */
  predicate UniqueKeys(v: Value)
    decreases v, 1
  {
    v.Box? ==> UniqueKeysIn(v.shape, v.kids)
  }

  predicate UniqueKeysIn(shape: Shape, kids: Kids)
    decreases kids, 0
  {
    kids.Kid? ==> UniqueKeys(kids.value) && UniqueKeysIn(shape, kids.rest)
                  && (shape.Obj? ==> !HasKey(kids.rest, kids.key))
  }

  lemma {:induction false} ChildAbsent(kids: Kids, move: Move)
    ensures Child(Obj, kids, move).Some? ==> move.ByKey? && HasKey(kids, move.key)
    ensures Child(Obj, StrippedKids(Obj, kids), move).Some? ==> move.ByKey? && HasKey(kids, move.key)
  {
    if kids.Kid? {
      ChildAbsent(kids.rest, move);
    }
  }

  /** A child is omitted or stripped in place. */
  lemma {:induction false} ChildStripped(shape: Shape, kids: Kids, move: Move)
    requires UniqueKeysIn(shape, kids)
    ensures var c := Child(shape, kids, move);
            Child(shape, StrippedKids(shape, kids), move)
            == if c.None? || (shape.Obj? && IsEmpty(c.value)) then None else Some(Stripped(c.value))
    ensures Child(shape, kids, move).Some? ==> UniqueKeys(Child(shape, kids, move).value)
    decreases kids
  {
    if kids.Kid? {
      if shape.Obj? {
        ChildAbsent(kids.rest, move);
        ChildStripped(shape, kids.rest, move);
      } else if move.ByIndex? && move.index > 0 {
        ChildStripped(shape, kids.rest, ByIndex(move.index - 1));
      }
    }
  }

  /** Scalars other than null and the empty string keep their paths, and no scalar appears at a new path. */
  lemma {:induction false} ScalarsKeepPaths(v: Value, path: seq<Move>, s: Value)
    requires UniqueKeys(v) && !s.Box?
    ensures At(Stripped(v), path) == Some(s) ==> At(v, path) == Some(s)
    ensures At(v, path) == Some(s) && !IsEmpty(s) ==> At(Stripped(v), path) == Some(s)
    decreases |path|
  {
    if path != [] && v.Box? {
      ChildStripped(v.shape, v.kids, path[0]);
      var c := Child(v.shape, v.kids, path[0]);
      if c.Some? {
        ScalarsKeepPaths(c.value, path[1..], s);
        if IsEmpty(c.value) && !IsEmpty(s) {
          EmptyHasNothing(c.value, path[1..], s);
        }
      }
    }
  }

  lemma EmptyHasNothing(v: Value, path: seq<Move>, s: Value)
    requires IsEmpty(v) && !s.Box? && !IsEmpty(s)
    ensures At(v, path) != Some(s)
  {
    if path != [] && v.Box? {
      assert Child(v.shape, v.kids, path[0]) == None;
    }
  }

  // ----- One pass is not enough -----

  /** Some retained field is an object all of whose fields are empty: it becomes {} and would go in a second pass. */
  predicate LeavesEmpty(v: Value)
    decreases v, 1
  {
    v.Box? && LeavesEmptyIn(v.shape, v.kids)
  }

  predicate LeavesEmptyIn(shape: Shape, kids: Kids)
    decreases kids, 0
  {
    kids.Kid? &&
    (LeavesEmptyIn(shape, kids.rest)
     || (!(shape.Obj? && IsEmpty(kids.value)) && LeavesEmpty(kids.value))
     || (shape.Obj? && kids.value.Box? && kids.value.shape.Obj? && kids.value.kids.Kid? && AllEmpty(kids.value.kids)))
  }

  predicate AllEmpty(kids: Kids) {
    kids.Kid? ==> IsEmpty(kids.value) && AllEmpty(kids.rest)
  }

  lemma {:induction false} EmptyAfter(shape: Shape, kids: Kids)
    ensures StrippedKids(shape, kids).NoKids? <==> kids.NoKids? || (shape.Obj? && AllEmpty(kids))
    decreases kids
  {
    if kids.Kid? {
      EmptyAfter(shape, kids.rest);
    }
  }

  /** A second pass changes nothing exactly when the first leaves no emptied object behind. */
  lemma {:induction false} IdempotentExactly(v: Value)
    ensures Stripped(Stripped(v)) == Stripped(v) <==> !LeavesEmpty(v)
    decreases v, 1
  {
    if v.Box? {
      IdempotentKids(v.shape, v.kids);
    }
  }

  lemma {:induction false} IdempotentKids(shape: Shape, kids: Kids)
    ensures var once := StrippedKids(shape, kids);
            StrippedKids(shape, once) == once <==> !LeavesEmptyIn(shape, kids)
    ensures KidCount(StrippedKids(shape, kids)) <= KidCount(kids)
    decreases kids, 0
  {
    if kids.Kid? {
      IdempotentKids(shape, kids.rest);
      IdempotentExactly(kids.value);
      if kids.value.Box? {
        EmptyAfter(kids.value.shape, kids.value.kids);
      }
      StrippedShorter(shape, StrippedKids(shape, kids.rest));
    }
  }

  function KidCount(kids: Kids): nat {
    if kids.NoKids? then 0 else 1 + KidCount(kids.rest)
  }

  lemma {:induction false} StrippedShorter(shape: Shape, kids: Kids)
    ensures KidCount(StrippedKids(shape, kids)) <= KidCount(kids)
    decreases kids
  {
    if kids.Kid? {
      StrippedShorter(shape, kids.rest);
    }
  }

  /** {"a":{"b":null}} becomes {"a":{}}, which becomes {}. */
  lemma NotIdempotent()
    ensures var inner := Box(Obj, Kid([0x62], Leaf(NULL), NoKids));
            var v := Box(Obj, Kid([0x61], inner, NoKids));
            Stripped(Stripped(v)) != Stripped(v)
  {
    var inner := Box(Obj, Kid([0x62], Leaf(NULL), NoKids));
    IdempotentExactly(Box(Obj, Kid([0x61], inner, NoKids)));
  }
}
