// The canonical text behind the Configuration page's "is this an edit?" test
// (apps/daemon/console/configuration-model.js): members are written in key order,
// so two documents have one text exactly when they differ in member order alone.

module CanonicalJson {
  import opened Wrappers
  import opened TextOrder
  import opened JsonText
  import opened Sorting

  // --- Objects as member lists ---

  /** JavaScript's `object[key]`. */
  function Lookup(members: seq<Member>, key: string): (found: Option<Json>)
    ensures found.Some? ==> exists i :: 0 <= i < |members| && members[i] == Member(key, found.value)
    ensures found.None? ==> forall i :: 0 <= i < |members| ==> members[i].key != key
  {
    if members == [] then None
    else if members[0].key == key then Some(members[0].value)
    else
      var found := Lookup(members[1..], key);
      assert forall i :: 0 <= i < |members| - 1 ==> members[1..][i] == members[i + 1];
      found
  }

  /** JavaScript's `Object.keys(object)`. */
  function Keys(members: seq<Member>): (keys: seq<string>)
    ensures |keys| == |members|
    ensures forall i :: 0 <= i < |members| ==> keys[i] == members[i].key
    ensures forall key :: key in keys <==> Lookup(members, key).Some?
  {
    var keys := seq(|members|, i requires 0 <= i < |members| => members[i].key);
    assert forall key :: key in keys <==> Lookup(members, key).Some? by {
      forall key
        ensures key in keys <==> Lookup(members, key).Some?
      {
        if Lookup(members, key).Some? {
          var i :| 0 <= i < |members| && members[i] == Member(key, Lookup(members, key).value);
          assert keys[i] == key;
        }
      }
    }
    keys
  }

  predicate HasDistinctKeys(members: seq<Member>) {
    forall i, j :: 0 <= i < j < |members| ==> members[i].key != members[j].key
  }

  /** What a JavaScript object can be: no key twice, at any depth. */
  predicate IsDocument(value: Json) {
    match value
    case Array(items) => forall i :: 0 <= i < |items| ==> IsDocument(items[i])
    case Object(members) =>
      HasDistinctKeys(members) && forall i :: 0 <= i < |members| ==> IsDocument(members[i].value)
    case _ => true
  }

  // --- Sorting keys ---

  predicate IsUnitOrdered(a: string, b: string) {
    !UnitsBefore(b, a)
  }

  lemma UnitsOrder()
    ensures IsOrder(IsUnitOrdered) && IsStrict(IsUnitOrdered)
  {
    forall a, b
      ensures IsUnitOrdered(a, b) || IsUnitOrdered(b, a)
      ensures IsUnitOrdered(a, b) && IsUnitOrdered(b, a) ==> a == b
    {
      UnitsBeforeTrichotomy(a, b);
    }
    forall a, b, c | IsUnitOrdered(a, b) && IsUnitOrdered(b, c)
      ensures IsUnitOrdered(a, c)
    {
      UnitsBeforeTrichotomy(a, b);
      UnitsBeforeTrichotomy(b, c);
      UnitsBeforeTrichotomy(a, c);
      if UnitsBefore(a, b) && UnitsBefore(b, c) {
        UnitsBeforeTransitive(a, b, c);
      }
    }
  }

  /** JavaScript's `keys.sort()`. */
  function SortKeys(keys: seq<string>): seq<string> {
    Sort(keys, IsUnitOrdered)
  }

  lemma SortKeepsKeys(keys: seq<string>)
    ensures |SortKeys(keys)| == |keys|
    ensures forall key :: key in SortKeys(keys) <==> key in keys
  {
    SortKeepsMembers(keys, IsUnitOrdered);
  }

  /** The sorted keys depend only on which keys there are, not on their order. */
  lemma SortedKeysUnique(a: seq<string>, b: seq<string>)
    requires multiset(a) == multiset(b)
    ensures SortKeys(a) == SortKeys(b)
  {
    UnitsOrder();
    SortSorts(a, IsUnitOrdered);
    SortSorts(b, IsUnitOrdered);
    SortHolds(a, IsUnitOrdered);
    SortHolds(b, IsUnitOrdered);
    SortedUnique(SortKeys(a), SortKeys(b), IsUnitOrdered);
  }

  /** Sorted keys ascend by their UTF-16 units. */
  lemma SortedKeysAscend(keys: seq<string>, i: nat, j: nat)
    requires i < j < |keys|
    ensures |SortKeys(keys)| == |keys|
    ensures SortKeys(keys)[i] == SortKeys(keys)[j] || UnitsBefore(SortKeys(keys)[i], SortKeys(keys)[j])
  {
    UnitsOrder();
    SortKeepsKeys(keys);
    SortSorts(keys, IsUnitOrdered);
    assert IsUnitOrdered(SortKeys(keys)[i], SortKeys(keys)[j]);
    UnitsBeforeTrichotomy(SortKeys(keys)[i], SortKeys(keys)[j]);
  }

  // --- The canonical text ---

  function Canonical(value: Json): string
    decreases value, 2
  {
    match value
    case Array(items) => "[" + Join(CanonicalItems(items)) + "]"
    case Object(members) =>
      var keys := SortKeys(Keys(members));
      SortKeepsKeys(Keys(members));
      "{" + Join(CanonicalMembers(members, keys)) + "}"
    case _ => Stringify(value)
  }

  function CanonicalItems(items: seq<Json>): (parts: seq<string>)
    decreases items, 0
  {
    if items == [] then [] else [Canonical(items[0])] + CanonicalItems(items[1..])
  }

  function CanonicalMembers(members: seq<Member>, keys: seq<string>): (parts: seq<string>)
    requires forall key :: key in keys ==> Lookup(members, key).Some?
    decreases members, 0, |keys|
  {
    if keys == [] then []
    else
      var value := Lookup(members, keys[0]).value;
      [Quote(keys[0]) + ":" + Canonical(value)] + CanonicalMembers(members, keys[1..])
  }

  predicate ConfigurationDocumentsAreEqual(first: Json, second: Json) {
    Canonical(first) == Canonical(second)
  }

  // --- The document with every object's members put in key order ---

  function InKeyOrder(value: Json): (ordered: Json)
    decreases value, 2
  {
    match value
    case Array(items) => Array(ItemsInKeyOrder(items))
    case Object(members) =>
      SortKeepsKeys(Keys(members));
      Object(MembersInKeyOrder(members, SortKeys(Keys(members))))
    case _ => value
  }

  function ItemsInKeyOrder(items: seq<Json>): (ordered: seq<Json>)
    ensures |ordered| == |items|
    ensures forall i :: 0 <= i < |items| ==> ordered[i] == InKeyOrder(items[i])
    decreases items, 0
  {
    if items == [] then [] else [InKeyOrder(items[0])] + ItemsInKeyOrder(items[1..])
  }

  function MembersInKeyOrder(members: seq<Member>, keys: seq<string>): (ordered: seq<Member>)
    requires forall key :: key in keys ==> Lookup(members, key).Some?
    ensures |ordered| == |keys|
    ensures forall i :: 0 <= i < |keys| ==> ordered[i] == Member(keys[i], InKeyOrder(Lookup(members, keys[i]).value))
    decreases members, 0, |keys|
  {
    if keys == [] then []
    else
      [Member(keys[0], InKeyOrder(Lookup(members, keys[0]).value))] + MembersInKeyOrder(members, keys[1..])
  }

  lemma {:induction false} CanonicalIsOrderedText(value: Json)
    ensures Canonical(value) == Stringify(InKeyOrder(value))
    decreases value, 2
  {
    match value
    case Array(items) => CanonicalItemsAreOrderedText(items);
    case Object(members) =>
      SortKeepsKeys(Keys(members));
      CanonicalMembersAreOrderedText(members, SortKeys(Keys(members)));
    case _ =>
  }

  lemma {:induction false} CanonicalItemsAreOrderedText(items: seq<Json>)
    ensures CanonicalItems(items) == StringifyItems(ItemsInKeyOrder(items))
    decreases items, 0
  {
    if items != [] {
      CanonicalIsOrderedText(items[0]);
      CanonicalItemsAreOrderedText(items[1..]);
      assert ItemsInKeyOrder(items)[1..] == ItemsInKeyOrder(items[1..]);
    }
  }

  lemma {:induction false} CanonicalMembersAreOrderedText(members: seq<Member>, keys: seq<string>)
    requires forall key :: key in keys ==> Lookup(members, key).Some?
    ensures CanonicalMembers(members, keys) == StringifyMembers(MembersInKeyOrder(members, keys))
    decreases members, 0, |keys|
  {
    if keys != [] {
      CanonicalIsOrderedText(Lookup(members, keys[0]).value);
      CanonicalMembersAreOrderedText(members, keys[1..]);
      assert MembersInKeyOrder(members, keys)[1..] == MembersInKeyOrder(members, keys[1..]);
    }
  }

  // --- Equal up to member order ---

  /** The same document: arrays item by item, objects key by key in any order. */
  ghost predicate SameDocument(first: Json, second: Json)
    decreases first
  {
    match (first, second)
    case (Array(a), Array(b)) => |a| == |b| && forall i :: 0 <= i < |a| ==> SameDocument(a[i], b[i])
    case (Object(a), Object(b)) =>
      && (forall key :: Lookup(a, key).Some? <==> Lookup(b, key).Some?)
      && (forall key :: Lookup(a, key).Some? && Lookup(b, key).Some? ==>
            SameDocument(Lookup(a, key).value, Lookup(b, key).value))
    case _ => first == second
  }

  lemma {:induction false} SameInKeyOrder(first: Json, second: Json)
    requires InKeyOrder(first) == InKeyOrder(second)
    ensures SameDocument(first, second)
    decreases first
  {
    match (first, second)
    case (Array(a), Array(b)) =>
      forall i | 0 <= i < |a|
        ensures SameDocument(a[i], b[i])
      {
        assert InKeyOrder(a[i]) == ItemsInKeyOrder(a)[i] == ItemsInKeyOrder(b)[i] == InKeyOrder(b[i]);
        SameInKeyOrder(a[i], b[i]);
      }
    case (Object(a), Object(b)) => SameMembersInKeyOrder(a, b);
    case _ =>
  }

  lemma OrderedMembersAgree(a: seq<Member>, b: seq<Member>, keysA: seq<string>, keysB: seq<string>)
    requires forall key :: key in keysA ==> Lookup(a, key).Some?
    requires forall key :: key in keysB ==> Lookup(b, key).Some?
    requires MembersInKeyOrder(a, keysA) == MembersInKeyOrder(b, keysB)
    ensures keysA == keysB
    ensures forall key :: key in keysA ==> InKeyOrder(Lookup(a, key).value) == InKeyOrder(Lookup(b, key).value)
  {
    var orderedA, orderedB := MembersInKeyOrder(a, keysA), MembersInKeyOrder(b, keysB);
    forall i | 0 <= i < |keysA|
      ensures keysA[i] == keysB[i]
      ensures InKeyOrder(Lookup(a, keysA[i]).value) == InKeyOrder(Lookup(b, keysB[i]).value)
    {
      assert orderedA[i] == orderedB[i];
    }
  }

  lemma {:induction false} SameMembersInKeyOrder(a: seq<Member>, b: seq<Member>)
    requires InKeyOrder(Object(a)) == InKeyOrder(Object(b))
    ensures SameDocument(Object(a), Object(b))
    decreases a
  {
    SortKeepsKeys(Keys(a));
    SortKeepsKeys(Keys(b));
    var keys := SortKeys(Keys(a));
    OrderedMembersAgree(a, b, keys, SortKeys(Keys(b)));
    assert forall key :: key in keys <==> Lookup(a, key).Some?;
    assert forall key :: key in keys <==> Lookup(b, key).Some?;
    forall key | Lookup(a, key).Some?
      ensures SameDocument(Lookup(a, key).value, Lookup(b, key).value)
    {
      assert key in keys;
      SameInKeyOrder(Lookup(a, key).value, Lookup(b, key).value);
    }
  }

  lemma {:induction false} LookupIsDocument(members: seq<Member>, key: string)
    requires IsDocument(Object(members)) && Lookup(members, key).Some?
    ensures IsDocument(Lookup(members, key).value)
  {
    var i :| 0 <= i < |members| && members[i] == Member(key, Lookup(members, key).value);
  }

  lemma DistinctKeysMultiset(members: seq<Member>, others: seq<Member>)
    requires HasDistinctKeys(members) && HasDistinctKeys(others)
    requires forall key :: Lookup(members, key).Some? <==> Lookup(others, key).Some?
    ensures multiset(Keys(members)) == multiset(Keys(others))
  {
    forall key: string
      ensures multiset(Keys(members))[key] == multiset(Keys(others))[key]
    {
      DistinctCount(Keys(members), key);
      DistinctCount(Keys(others), key);
    }
  }

  lemma {:induction false} DistinctCount(keys: seq<string>, key: string)
    requires forall i, j :: 0 <= i < j < |keys| ==> keys[i] != keys[j]
    ensures multiset(keys)[key] == if key in keys then 1 else 0
  {
    if keys != [] {
      assert keys == [keys[0]] + keys[1..];
      DistinctCount(keys[1..], key);
    }
  }

  lemma {:induction false} InKeyOrderSame(first: Json, second: Json)
    requires IsDocument(first) && IsDocument(second)
    requires SameDocument(first, second)
    ensures InKeyOrder(first) == InKeyOrder(second)
    decreases first
  {
    match (first, second)
    case (Array(a), Array(b)) =>
      forall i | 0 <= i < |a|
        ensures ItemsInKeyOrder(a)[i] == ItemsInKeyOrder(b)[i]
      {
        InKeyOrderSame(a[i], b[i]);
      }
    case (Object(a), Object(b)) => MembersInKeyOrderSame(a, b);
    case _ =>
  }

  lemma {:induction false} MembersInKeyOrderSame(a: seq<Member>, b: seq<Member>)
    requires IsDocument(Object(a)) && IsDocument(Object(b))
    requires SameDocument(Object(a), Object(b))
    ensures InKeyOrder(Object(a)) == InKeyOrder(Object(b))
    decreases a, 1
  {
    DistinctKeysMultiset(a, b);
    var keys, others := SortKeys(Keys(a)), SortKeys(Keys(b));
    SortKeepsKeys(Keys(a));
    SortedKeysUnique(Keys(a), Keys(b));
    SortKeepsKeys(Keys(b));
    var orderedA, orderedB := MembersInKeyOrder(a, keys), MembersInKeyOrder(b, keys);
    forall i | 0 <= i < |keys|
      ensures orderedA[i] == orderedB[i]
    {
      assert keys[i] in keys;
      ValueInKeyOrderSame(a, b, keys[i]);
    }
    assert orderedA == orderedB;
  }

  lemma {:induction false} ValueInKeyOrderSame(a: seq<Member>, b: seq<Member>, key: string)
    requires IsDocument(Object(a)) && IsDocument(Object(b))
    requires SameDocument(Object(a), Object(b)) && Lookup(a, key).Some?
    ensures Lookup(b, key).Some? && InKeyOrder(Lookup(a, key).value) == InKeyOrder(Lookup(b, key).value)
    decreases a, 0
  {
    LookupIsDocument(a, key);
    LookupIsDocument(b, key);
    InKeyOrderSame(Lookup(a, key).value, Lookup(b, key).value);
  }

  /** The page calls two documents equal exactly when only member order tells them apart. */
  lemma CanonicalEquality(first: Json, second: Json)
    requires IsDocument(first) && IsDocument(second)
    ensures ConfigurationDocumentsAreEqual(first, second) <==> SameDocument(first, second)
  {
    CanonicalIsOrderedText(first);
    CanonicalIsOrderedText(second);
    if Canonical(first) == Canonical(second) {
      StringifyInjective(InKeyOrder(first), InKeyOrder(second));
      SameInKeyOrder(first, second);
    }
    if SameDocument(first, second) {
      InKeyOrderSame(first, second);
    }
  }

  /** Reading the canonical text back gives the document in key order, whatever order it was in. */
  lemma CanonicalReadsBack(document: Json)
    requires IsDocument(document)
    ensures ParseJson(Canonical(document)) == Some(InKeyOrder(document))
    ensures SameDocument(document, InKeyOrder(document))
  {
    CanonicalIsOrderedText(document);
    CloneIsFaithful(InKeyOrder(document));
    KeyOrderIsSameDocument(document);
  }

  lemma {:induction false} KeyOrderIsSameDocument(document: Json)
    requires IsDocument(document)
    ensures SameDocument(document, InKeyOrder(document))
    decreases document
  {
    match document
    case Array(items) =>
      forall i | 0 <= i < |items|
        ensures SameDocument(items[i], ItemsInKeyOrder(items)[i])
      {
        KeyOrderIsSameDocument(items[i]);
      }
    case Object(members) =>
      SortKeepsKeys(Keys(members));
      var keys := SortKeys(Keys(members));
      var ordered := MembersInKeyOrder(members, keys);
      forall key
        ensures Lookup(members, key).Some? <==> Lookup(ordered, key).Some?
        ensures Lookup(members, key).Some? ==> SameDocument(Lookup(members, key).value, Lookup(ordered, key).value)
      {
        LookupInKeyOrder(members, keys, key);
        assert key in keys <==> Lookup(members, key).Some?;
        if Lookup(members, key).Some? {
          LookupIsDocument(members, key);
          KeyOrderIsSameDocument(Lookup(members, key).value);
        }
      }
    case _ =>
  }

  lemma LookupInKeyOrder(members: seq<Member>, keys: seq<string>, key: string)
    requires forall k :: k in keys ==> Lookup(members, k).Some?
    ensures Lookup(MembersInKeyOrder(members, keys), key) ==
              if key in keys then Some(InKeyOrder(Lookup(members, key).value)) else None
  {
    var ordered := MembersInKeyOrder(members, keys);
    if key in keys {
      var i :| 0 <= i < |keys| && keys[i] == key;
      assert ordered[i].key == key;
    }
    if Lookup(ordered, key).Some? {
      var j :| 0 <= j < |ordered| && ordered[j] == Member(key, Lookup(ordered, key).value);
      assert keys[j] == key;
    }
  }
}
