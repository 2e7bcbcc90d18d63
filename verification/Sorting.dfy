/** Stable sorting on tuple keys of text and numbers, compared lexicographically. */
module Sorting {
  datatype Atom = Num(n: int) | Str(s: string)

  type SortKey = seq<Atom>

  /** Strings by code points. */
  predicate StringLess(a: string, b: string) {
    b != [] && (a == [] || a[0] < b[0] || (a[0] == b[0] && StringLess(a[1..], b[1..])))
  }

  lemma {:induction false} StringOrder(a: string, b: string, c: string)
    ensures StringLess(a, b) || StringLess(b, a) || a == b
    ensures !(StringLess(a, b) && StringLess(b, a)) && !StringLess(a, a)
    ensures StringLess(a, b) && StringLess(b, c) ==> StringLess(a, c)
  {
    if a != [] {
      StringOrder(a[1..], if b == [] then [] else b[1..], if c == [] then [] else c[1..]);
      if b != [] {
        assert a == [a[0]] + a[1..] && b == [b[0]] + b[1..];
      }
    }
  }

  predicate AtomLess(a: Atom, b: Atom) {
    match (a, b)
    case (Num(m), Num(n)) => m < n
    case (Str(s), Str(t)) => StringLess(s, t)
    case _ => a.Num? && b.Str?
  }

  predicate KeyLess(a: SortKey, b: SortKey) {
    b != [] && (a == [] || AtomLess(a[0], b[0]) || (a[0] == b[0] && KeyLess(a[1..], b[1..])))
  }

  lemma AtomOrder(a: Atom, b: Atom, c: Atom)
    ensures AtomLess(a, b) || AtomLess(b, a) || a == b
    ensures !(AtomLess(a, b) && AtomLess(b, a)) && !AtomLess(a, a)
    ensures AtomLess(a, b) && AtomLess(b, c) ==> AtomLess(a, c)
  {
    hide StringLess;
    if a.Str? && b.Str? {
      StringOrder(a.s, b.s, if c.Str? then c.s else []);
    } else if a.Str? {
      StringOrder(a.s, a.s, a.s);
    }
  }

  lemma {:induction false} KeyOrder(a: SortKey, b: SortKey, c: SortKey)
    ensures KeyLess(a, b) || KeyLess(b, a) || a == b
    ensures !(KeyLess(a, b) && KeyLess(b, a))
    ensures KeyLess(a, b) && KeyLess(b, c) ==> KeyLess(a, c)
  {
    hide AtomLess;
    if a != [] && b != [] {
      var d := if c == [] then b[0] else c[0];
      AtomOrder(a[0], b[0], d);
      KeyOrder(a[1..], b[1..], if c == [] then [] else c[1..]);
      assert a == [a[0]] + a[1..] && b == [b[0]] + b[1..];
    }
  }

  predicate NotAfter<T>(a: T, b: T, key: T -> SortKey) {
    !KeyLess(key(b), key(a))
  }

  ghost predicate SortedOn<T>(s: seq<T>, key: T -> SortKey) {
    forall i, j :: 0 <= i < j < |s| ==> NotAfter(s[i], s[j], key)
  }

  function InsertOn<T>(x: T, s: seq<T>, key: T -> SortKey): seq<T> {
    if s == [] || NotAfter(x, s[0], key) then [x] + s else [s[0]] + InsertOn(x, s[1..], key)
  }

  /** `sorted(s, key=key)`: elements with equal keys keep their order. */
  function SortOn<T>(s: seq<T>, key: T -> SortKey): seq<T> {
    if s == [] then [] else InsertOn(s[0], SortOn(s[1..], key), key)
  }

  ghost predicate Heads<T>(head: T, s: seq<T>, key: T -> SortKey) {
    forall j :: 0 <= j < |s| ==> NotAfter(head, s[j], key)
  }

  lemma ConsSorted<T>(head: T, s: seq<T>, key: T -> SortKey)
    ensures SortedOn([head] + s, key) <==> Heads(head, s, key) && SortedOn(s, key)
  {
    hide NotAfter;
    var all := [head] + s;
    assert forall j :: 0 <= j < |s| ==> all[j + 1] == s[j];
    if SortedOn(all, key) {
      forall i, j | 0 <= i < j < |s| ensures NotAfter(s[i], s[j], key) {
        assert NotAfter(all[i + 1], all[j + 1], key);
      }
      forall j | 0 <= j < |s| ensures NotAfter(head, s[j], key) {
        assert NotAfter(all[0], all[j + 1], key);
      }
    }
  }

  lemma HeadsTransitive<T>(x: T, head: T, s: seq<T>, key: T -> SortKey)
    requires NotAfter(x, head, key) && Heads(head, s, key)
    ensures Heads(x, s, key)
  {
    hide NotAfter;
    forall j | 0 <= j < |s| ensures NotAfter(x, s[j], key) {
      NotAfterTransitive(x, head, s[j], key);
    }
  }

  lemma {:induction false} InsertHeads<T>(head: T, x: T, s: seq<T>, key: T -> SortKey)
    requires NotAfter(head, x, key) && Heads(head, s, key)
    ensures Heads(head, InsertOn(x, s, key), key)
  {
    hide NotAfter;
    if s != [] {
      InsertHeads(head, x, s[1..], key);
    }
  }

  lemma {:induction false} InsertOnSorted<T>(x: T, s: seq<T>, key: T -> SortKey)
    requires SortedOn(s, key)
    ensures SortedOn(InsertOn(x, s, key), key)
    ensures multiset(InsertOn(x, s, key)) == multiset{x} + multiset(s)
  {
    hide NotAfter, SortedOn, Heads;
    if s == [] {
      OneSorted(x, key);
      assert [x] + s == [x];
    } else {
      assert s == [s[0]] + s[1..];
      ConsSorted(s[0], s[1..], key);
      NotAfterTotal(x, s[0], key);
      if NotAfter(x, s[0], key) {
        HeadsTransitive(x, s[0], s[1..], key);
        HeadsCons(x, s, key);
        ConsSorted(x, s, key);
      } else {
        InsertOnSorted(x, s[1..], key);
        InsertHeads(s[0], x, s[1..], key);
        ConsSorted(s[0], InsertOn(x, s[1..], key), key);
      }
    }
  }

  lemma HeadsCons<T>(x: T, s: seq<T>, key: T -> SortKey)
    requires s != [] && NotAfter(x, s[0], key) && Heads(x, s[1..], key)
    ensures Heads(x, s, key)
  {
    forall j | 0 <= j < |s| ensures NotAfter(x, s[j], key) {
      assert j > 0 ==> s[j] == s[1..][j - 1];
    }
  }

  lemma OneSorted<T>(x: T, key: T -> SortKey)
    ensures SortedOn([x], key)
  {
  }

  lemma NotAfterTotal<T>(a: T, b: T, key: T -> SortKey)
    ensures NotAfter(a, b, key) || NotAfter(b, a, key)
  {
    KeyOrder(key(a), key(b), key(a));
  }

  lemma NotAfterTransitive<T>(a: T, b: T, c: T, key: T -> SortKey)
    requires NotAfter(a, b, key) && NotAfter(b, c, key)
    ensures NotAfter(a, c, key)
  {
    hide KeyLess;
    KeyOrder(key(c), key(a), key(b));
    KeyOrder(key(a), key(b), key(c));
    KeyOrder(key(b), key(c), key(a));
  }

  /** Sorting gives an ordered permutation. */
  lemma {:induction false} SortOnSorted<T>(s: seq<T>, key: T -> SortKey)
    ensures SortedOn(SortOn(s, key), key)
    ensures multiset(SortOn(s, key)) == multiset(s)
  {
    hide InsertOn, NotAfter, SortedOn;
    NoneSorted(key);
    if s != [] {
      SortOnSorted(s[1..], key);
      InsertOnSorted(s[0], SortOn(s[1..], key), key);
      assert s == [s[0]] + s[1..];
    }
  }

  lemma NoneSorted<T>(key: T -> SortKey)
    ensures SortedOn([], key)
  {
  }
}
