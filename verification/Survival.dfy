/** Which blocks survive a compaction: anonymous fingerprints matched as multisets, tokens summed by category. */
module Survival {
  import opened Base

  datatype Block = Block(semantic: Option<bytes>, exact: Option<bytes>, tokens: Option<int>, category: string)

  datatype Field = Semantic | Exact

  type Key = (Field, bytes)

  /** The semantic fingerprint when there is one, else the exact one. */
  function KeyOf(b: Block): Option<Key> {
    if b.semantic.Some? then Some((Semantic, b.semantic.value))
    else if b.exact.Some? then Some((Exact, b.exact.value))
    else None
  }

  /** A block that can be matched: it has an estimate and a key. */
  predicate Matchable(b: Block) {
    b.tokens.Some? && KeyOf(b).Some?
  }

  function Keys(blocks: seq<Block>): multiset<Key> {
    if blocks == [] then multiset{}
    else (if KeyOf(blocks[0]).Some? then multiset{KeyOf(blocks[0]).value} else multiset{}) + Keys(blocks[1..])
  }

  function MatchableKeys(blocks: seq<Block>): multiset<Key> {
    if blocks == [] then multiset{}
    else (if Matchable(blocks[0]) then multiset{KeyOf(blocks[0]).value} else multiset{}) + MatchableKeys(blocks[1..])
  }

  // ----- What survives -----

  predicate Takes(b: Block, left: multiset<Key>) {
    Matchable(b) && KeyOf(b).value in left
  }

  function LeftAfter(b: Block, left: multiset<Key>): multiset<Key> {
    if Takes(b, left) then left - multiset{KeyOf(b).value} else left
  }

  /** Blocks matched in order, each using up one key of what is left. */
  function Survivors(before: seq<Block>, left: multiset<Key>): seq<Block> {
    if before == [] then []
    else
      (if Takes(before[0], left) then [before[0]] else []) + Survivors(before[1..], LeftAfter(before[0], left))
  }

  /** Per fingerprint the survivors are as many as both sides have: the multiset intersection, and no match is larger. */
  lemma {:induction false} SurvivorsAreIntersection(before: seq<Block>, left: multiset<Key>)
    ensures Keys(Survivors(before, left)) == MatchableKeys(before) * left
    ensures forall k :: Keys(Survivors(before, left))[k]
                        == if MatchableKeys(before)[k] < left[k] then MatchableKeys(before)[k] else left[k]
  {
    if before != [] {
      var b, rest := before[0], LeftAfter(before[0], left);
      SurvivorsAreIntersection(before[1..], rest);
      if Takes(b, left) {
        var tail := Survivors(before[1..], rest);
        assert ([b] + tail)[1..] == tail;
      } else {
        assert [] + Survivors(before[1..], rest) == Survivors(before[1..], rest);
      }
    }
  }

  function TokensOf(blocks: seq<Block>, category: string): int {
    if blocks == [] then 0
    else
      (if blocks[0].category == category && blocks[0].tokens.Some? then blocks[0].tokens.value else 0)
      + TokensOf(blocks[1..], category)
  }

  /** The blocks that are not matched. */
  function Lost(before: seq<Block>, left: multiset<Key>): seq<Block> {
    if before == [] then []
    else
      (if Takes(before[0], left) then [] else [before[0]]) + Lost(before[1..], LeftAfter(before[0], left))
  }

  /** Every token of a category is in a survivor or in a lost block. */
  lemma {:induction false} TokensSplit(before: seq<Block>, left: multiset<Key>, category: string)
    ensures TokensOf(before, category)
            == TokensOf(Survivors(before, left), category) + TokensOf(Lost(before, left), category)
  {
    if before != [] {
      var b, rest := before[0], LeftAfter(before[0], left);
      TokensSplit(before[1..], rest, category);
      assert ([b] + Survivors(before[1..], rest))[1..] == Survivors(before[1..], rest);
      assert ([b] + Lost(before[1..], rest))[1..] == Lost(before[1..], rest);
      assert [] + Lost(before[1..], rest) == Lost(before[1..], rest);
      assert [] + Survivors(before[1..], rest) == Survivors(before[1..], rest);
    }
  }

  predicate NonNegative(blocks: seq<Block>) {
    forall i :: 0 <= i < |blocks| ==> blocks[i].tokens.Some? ==> blocks[i].tokens.value >= 0
  }

  lemma {:induction false} LostFrom(before: seq<Block>, left: multiset<Key>)
    ensures NonNegative(before) ==> NonNegative(Lost(before, left))
  {
    if before != [] {
      LostFrom(before[1..], LeftAfter(before[0], left));
    }
  }

  lemma {:induction false} TokensNonNegative(blocks: seq<Block>, category: string)
    requires NonNegative(blocks)
    ensures TokensOf(blocks, category) >= 0
  {
    if blocks != [] {
      TokensNonNegative(blocks[1..], category);
    }
  }

  /** No category survives beyond its total, unless its lost blocks have a negative sum: impossible for counts. */
  lemma SurvivedWithinTotal(before: seq<Block>, left: multiset<Key>, category: string)
    ensures TokensOf(Survivors(before, left), category) <= TokensOf(before, category)
            <==> TokensOf(Lost(before, left), category) >= 0
    ensures NonNegative(before) ==>
              TokensOf(Survivors(before, left), category) <= TokensOf(before, category)
  {
    TokensSplit(before, left, category);
    LostFrom(before, left);
    if NonNegative(before) {
      TokensNonNegative(Lost(before, left), category);
    }
  }

  // ----- The matching loop -----

  type Candidates = map<Key, seq<int>>

  /** The lists hold one entry for every key that is left. */
  ghost predicate Holds(candidates: Candidates, left: multiset<Key>) {
    forall k :: left[k] == if k in candidates then |candidates[k]| else 0
  }

  function At(counter: map<string, int>, category: string): int {
    if category in counter then counter[category] else 0
  }

  method Collect(after: seq<Block>) returns (candidates: Candidates)
    ensures Holds(candidates, Keys(after))
  {
    candidates := map[];
    assert after[0..] == after;
    ghost var seen: multiset<Key> := multiset{};
    for i := 0 to |after|
      invariant Holds(candidates, seen) && seen + Keys(after[i..]) == Keys(after)
    {
      assert after[i..][1..] == after[i + 1..];
      var key := KeyOf(after[i]);
      if key.Some? {
        var k := key.value;
        var tokens := if after[i].tokens.Some? then after[i].tokens.value else 0;
        candidates := candidates[k := (if k in candidates then candidates[k] else []) + [tokens]];
        seen := seen + multiset{k};
      }
    }
    assert after[|after|..] == [];
  }

  /** `candidates.pop()` when there is one. */
  method TakeOne(candidates: Candidates, b: Block, ghost left: multiset<Key>)
    returns (rest: Candidates, taken: bool)
    requires Holds(candidates, left) && b.tokens.Some?
    ensures taken <==> Takes(b, left)
    ensures Holds(rest, LeftAfter(b, left))
  {
    hide KeyOf;
    var key := KeyOf(b);
    if key.Some? && key.value in candidates && candidates[key.value] != [] {
      var list := candidates[key.value];
      return candidates[key.value := list[..|list| - 1]], true;
    }
    return candidates, false;
  }

  /** The counter and what is still to come make up the whole, in every category. */
  ghost predicate Adds(counter: map<string, int>, rest: seq<Block>, whole: seq<Block>) {
    forall c :: At(counter, c) + TokensOf(rest, c) == TokensOf(whole, c)
  }

  lemma AddsStep(counter: map<string, int>, b: Block, rest: seq<Block>, whole: seq<Block>)
    requires Adds(counter, [b] + rest, whole) && b.tokens.Some?
    ensures Adds(counter[b.category := At(counter, b.category) + b.tokens.value], rest, whole)
  {
    assert ([b] + rest)[1..] == rest;
    forall c
      ensures TokensOf([b] + rest, c) == (if b.category == c then b.tokens.value else 0) + TokensOf(rest, c)
    {
    }
  }

  lemma AddsSkip(counter: map<string, int>, b: Block, rest: seq<Block>, whole: seq<Block>)
    requires Adds(counter, [b] + rest, whole) && b.tokens.None?
    ensures Adds(counter, rest, whole)
  {
    assert ([b] + rest)[1..] == rest;
    forall c
      ensures TokensOf([b] + rest, c) == TokensOf(rest, c)
    {
    }
  }

  lemma AddsNothing(whole: seq<Block>)
    ensures Adds(map[], whole, whole)
    ensures forall counter :: Adds(counter, [], whole) ==> forall c :: At(counter, c) == TokensOf(whole, c)
  {
  }

  ghost predicate Names(totals: map<string, int>, blocks: seq<Block>) {
    forall c :: c in totals <==> exists b :: b in blocks && b.tokens.Some? && b.category == c
  }

  lemma NamesStep(totals: map<string, int>, blocks: seq<Block>, b: Block, n: int)
    requires Names(totals, blocks)
    ensures Names(if b.tokens.Some? then totals[b.category := n] else totals, blocks + [b])
  {
    var grown := if b.tokens.Some? then totals[b.category := n] else totals;
    forall c ensures c in grown <==> exists x :: x in blocks + [b] && x.tokens.Some? && x.category == c {
      if c in grown {
        if c in totals {
          var x :| x in blocks && x.tokens.Some? && x.category == c;
          assert x in blocks + [b];
        } else {
          assert b in blocks + [b];
        }
      }
    }
  }

  /** `_survival_by_category`: the two counters of the report. */
  method SurvivalByCategory(before: seq<Block>, after: seq<Block>)
    returns (totals: map<string, int>, survived: map<string, int>)
    ensures forall c :: At(totals, c) == TokensOf(before, c)
    ensures forall c :: At(survived, c) == TokensOf(Survivors(before, Keys(after)), c)
    ensures Names(totals, before) && survived.Keys <= totals.Keys
  {
    hide KeyOf, Keys, Survivors, TokensOf, Holds, Adds, Names, Takes, LeftAfter;
    var candidates := Collect(after);
    totals, survived := map[], map[];
    ghost var left := Keys(after);
    ghost var whole := Survivors(before, left);
    assert before[0..] == before && before[..0] == [];
    AddsNothing(before);
    AddsNothing(whole);
    NoNames();
    for i := 0 to |before|
      invariant Holds(candidates, left) && survived.Keys <= totals.Keys
      invariant Adds(totals, before[i..], before) && Adds(survived, Survivors(before[i..], left), whole)
      invariant Names(totals, before[..i])
    {
      var b := before[i];
      ghost var was := left;
      left := LeftAfter(b, left);
      assert before[i..] == [b] + before[i + 1..] && before[..i + 1] == before[..i] + [b];
      SurvivorsStep(b, before[i + 1..], was);
      if b.tokens.Some? {
        AddsStep(totals, b, before[i + 1..], before);
        NamesStep(totals, before[..i], b, At(totals, b.category) + b.tokens.value);
        totals := totals[b.category := At(totals, b.category) + b.tokens.value];
        var taken;
        candidates, taken := TakeOne(candidates, b, was);
        if taken {
          AddsStep(survived, b, Survivors(before[i + 1..], left), whole);
          survived := survived[b.category := At(survived, b.category) + b.tokens.value];
        }
      } else {
        AddsSkip(totals, b, before[i + 1..], before);
        NamesStep(totals, before[..i], b, 0);
      }
    }
    assert before[|before|..] == [] && before[..|before|] == before;
    NoSurvivors(left);
  }

  lemma NoNames()
    ensures Names(map[], [])
  {
  }

  lemma NoSurvivors(left: multiset<Key>)
    ensures Survivors([], left) == []
  {
  }

  lemma SurvivorsStep(b: Block, rest: seq<Block>, left: multiset<Key>)
    ensures Survivors([b] + rest, left) == (if Takes(b, left) then [b] else []) + Survivors(rest, LeftAfter(b, left))
    ensures !Takes(b, left) ==> Survivors([b] + rest, left) == Survivors(rest, left) && LeftAfter(b, left) == left
    ensures b.tokens.None? ==> !Takes(b, left)
  {
    assert ([b] + rest)[1..] == rest;
    assert [] + Survivors(rest, left) == Survivors(rest, left);
  }
}
