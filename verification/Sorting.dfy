// Stable sorting by a relation: what the repository's `sort`, `sort_by` and
// JavaScript's `sort()` calls do.

module Sorting {

  /** A relation two things can always be ordered by, one way or the other. */
  ghost predicate IsOrder<T(!new)>(mayPrecede: (T, T) -> bool) {
    && (forall a, b :: mayPrecede(a, b) || mayPrecede(b, a))
    && (forall a, b, c :: mayPrecede(a, b) && mayPrecede(b, c) ==> mayPrecede(a, c))
  }

  predicate IsSorted<T>(items: seq<T>, mayPrecede: (T, T) -> bool) {
    forall i, j :: 0 <= i < j < |items| ==> mayPrecede(items[i], items[j])
  }

  /** The item goes in front of the first one it may precede. */
  function Insert<T>(item: T, items: seq<T>, mayPrecede: (T, T) -> bool): seq<T> {
    if items == [] || mayPrecede(item, items[0]) then [item] + items
    else [items[0]] + Insert(item, items[1..], mayPrecede)
  }

  function Sort<T>(items: seq<T>, mayPrecede: (T, T) -> bool): seq<T> {
    if items == [] then [] else Insert(items[0], Sort(items[1..], mayPrecede), mayPrecede)
  }

  lemma {:induction false} InsertHolds<T>(item: T, items: seq<T>, mayPrecede: (T, T) -> bool)
    ensures multiset(Insert(item, items, mayPrecede)) == multiset(items) + multiset{item}
    decreases |items|
  {
    if items != [] && !mayPrecede(item, items[0]) {
      InsertHolds(item, items[1..], mayPrecede);
      assert items == [items[0]] + items[1..];
    }
  }

  /** Sorting only reorders. */
  lemma {:induction false} SortHolds<T>(items: seq<T>, mayPrecede: (T, T) -> bool)
    ensures multiset(Sort(items, mayPrecede)) == multiset(items)
    decreases |items|
  {
    if items != [] {
      SortHolds(items[1..], mayPrecede);
      InsertHolds(items[0], Sort(items[1..], mayPrecede), mayPrecede);
      assert items == [items[0]] + items[1..];
    }
  }

  lemma SortKeepsMembers<T>(items: seq<T>, mayPrecede: (T, T) -> bool)
    ensures |Sort(items, mayPrecede)| == |items|
    ensures forall item :: item in Sort(items, mayPrecede) <==> item in items
  {
    var sorted := Sort(items, mayPrecede);
    SortHolds(items, mayPrecede);
    assert |sorted| == |multiset(sorted)| == |multiset(items)| == |items|;
    forall item
      ensures item in sorted <==> item in items
    {
      assert item in sorted <==> item in multiset(sorted);
      assert item in items <==> item in multiset(items);
    }
  }

  lemma {:induction false} InsertKeepsMembers<T>(item: T, items: seq<T>, mayPrecede: (T, T) -> bool)
    ensures forall other :: other in Insert(item, items, mayPrecede) <==> other == item || other in items
    decreases |items|
  {
    if items != [] && !mayPrecede(item, items[0]) {
      InsertKeepsMembers(item, items[1..], mayPrecede);
      assert items == [items[0]] + items[1..];
    }
  }

  lemma PrependSorts<T(!new)>(item: T, items: seq<T>, mayPrecede: (T, T) -> bool)
    requires IsOrder(mayPrecede) && IsSorted(items, mayPrecede) && (items != [] ==> mayPrecede(item, items[0]))
    ensures IsSorted([item] + items, mayPrecede)
  {
    var longer := [item] + items;
    forall i, j | 0 <= i < j < |longer|
      ensures mayPrecede(longer[i], longer[j])
    {
      if i > 0 {
        assert mayPrecede(items[i - 1], items[j - 1]);
      } else if j > 1 {
        assert mayPrecede(item, items[0]) && mayPrecede(items[0], items[j - 1]);
      }
    }
  }

  lemma {:induction false} InsertSorts<T(!new)>(item: T, items: seq<T>, mayPrecede: (T, T) -> bool)
    requires IsOrder(mayPrecede) && IsSorted(items, mayPrecede)
    ensures IsSorted(Insert(item, items, mayPrecede), mayPrecede)
    decreases |items|
  {
    if items == [] || mayPrecede(item, items[0]) {
      PrependSorts(item, items, mayPrecede);
    } else {
      var rest := Insert(item, items[1..], mayPrecede);
      InsertSorts(item, items[1..], mayPrecede);
      assert mayPrecede(items[0], item);
      assert rest[0] == item || (|items| > 1 && rest[0] == items[1]);
      PrependSorts(items[0], rest, mayPrecede);
    }
  }

  lemma {:induction false} SortSorts<T(!new)>(items: seq<T>, mayPrecede: (T, T) -> bool)
    requires IsOrder(mayPrecede)
    ensures IsSorted(Sort(items, mayPrecede), mayPrecede)
    decreases |items|
  {
    if items != [] {
      SortSorts(items[1..], mayPrecede);
      InsertSorts(items[0], Sort(items[1..], mayPrecede), mayPrecede);
    }
  }

  // --- Stability ---

  /** The items of one kind, in the order they stand. */
  function Selected<T>(items: seq<T>, isOne: T -> bool): seq<T> {
    if items == [] then [] else Alone(items[0], isOne) + Selected(items[1..], isOne)
  }

  /** Items of the kind may stand in either order. */
  ghost predicate AreAlike<T(!new)>(isOne: T -> bool, mayPrecede: (T, T) -> bool) {
    forall a, b :: isOne(a) && isOne(b) ==> mayPrecede(a, b)
  }

  function Alone<T>(item: T, isOne: T -> bool): seq<T> {
    if isOne(item) then [item] else []
  }

  lemma {:induction false} InsertIsStable<T(!new)>(item: T, items: seq<T>, isOne: T -> bool, mayPrecede: (T, T) -> bool)
    requires AreAlike(isOne, mayPrecede)
    ensures Selected(Insert(item, items, mayPrecede), isOne) == Alone(item, isOne) + Selected(items, isOne)
    decreases |items|
  {
    if items == [] || mayPrecede(item, items[0]) {
      SelectedInFront(item, items, isOne);
    } else {
      InsertIsStable(item, items[1..], isOne, mayPrecede);
      SelectedInFront(items[0], Insert(item, items[1..], mayPrecede), isOne);
      Swap(Alone(items[0], isOne), Alone(item, isOne), Selected(items[1..], isOne));
    }
  }

  lemma Swap<T>(a: seq<T>, b: seq<T>, rest: seq<T>)
    requires a == [] || b == []
    ensures a + (b + rest) == b + (a + rest)
  {
  }

  lemma SelectedInFront<T>(item: T, items: seq<T>, isOne: T -> bool)
    ensures Selected([item] + items, isOne) == Alone(item, isOne) + Selected(items, isOne)
  {
    assert ([item] + items)[1..] == items;
  }

  /** What may stand in either order keeps the order it came in. */
  lemma {:induction false} SortIsStable<T(!new)>(items: seq<T>, isOne: T -> bool, mayPrecede: (T, T) -> bool)
    requires AreAlike(isOne, mayPrecede)
    ensures Selected(Sort(items, mayPrecede), isOne) == Selected(items, isOne)
    decreases |items|
  {
    if items != [] {
      SortIsStable(items[1..], isOne, mayPrecede);
      InsertIsStable(items[0], Sort(items[1..], mayPrecede), isOne, mayPrecede);
    }
  }

  // --- One result ---

  ghost predicate IsStrict<T(!new)>(mayPrecede: (T, T) -> bool) {
    forall a, b :: mayPrecede(a, b) && mayPrecede(b, a) ==> a == b
  }

  lemma HeadsAgree<T(!new)>(a: seq<T>, b: seq<T>, mayPrecede: (T, T) -> bool)
    requires IsOrder(mayPrecede) && IsStrict(mayPrecede) && IsSorted(a, mayPrecede) && IsSorted(b, mayPrecede)
    requires a != [] && b != [] && multiset(a) == multiset(b)
    ensures a[0] == b[0]
  {
    assert a[0] in multiset(b) && b[0] in multiset(a);
    var i :| 0 <= i < |a| && a[i] == b[0];
    var j :| 0 <= j < |b| && b[j] == a[0];
    assert mayPrecede(a[0], a[i]) && mayPrecede(b[0], b[j]);
  }

  lemma TailsHoldTheSame<T>(a: seq<T>, b: seq<T>)
    requires a != [] && b != [] && a[0] == b[0] && multiset(a) == multiset(b)
    ensures multiset(a[1..]) == multiset(b[1..])
  {
    assert a == [a[0]] + a[1..] && b == [a[0]] + b[1..];
    assert multiset(a[1..]) == multiset(a) - multiset{a[0]} == multiset(b[1..]);
  }

  /** Where the relation tells any two things apart, one collection has one sorted order. */
  lemma {:induction false} SortedUnique<T(!new)>(a: seq<T>, b: seq<T>, mayPrecede: (T, T) -> bool)
    requires IsOrder(mayPrecede) && IsStrict(mayPrecede) && IsSorted(a, mayPrecede) && IsSorted(b, mayPrecede)
    requires multiset(a) == multiset(b)
    ensures a == b
    decreases |a|
  {
    assert |a| == |multiset(a)| == |multiset(b)| == |b|;
    if a != [] {
      HeadsAgree(a, b, mayPrecede);
      TailsHoldTheSame(a, b);
      SortedUnique(a[1..], b[1..], mayPrecede);
      assert a == [a[0]] + a[1..] && b == [b[0]] + b[1..];
    }
  }
}
