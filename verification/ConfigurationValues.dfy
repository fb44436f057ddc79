// A configuration document in memory (apps/daemon/console/configuration-model.js):
// objects and arrays as JavaScript keeps them, both as members under string keys.
// An array can hold members that are no elements and lack elements below its
// length; its JSON text shows neither, so cloning through text drops them.

module ConfigurationValues {
  import opened Wrappers
  import opened Numerals
  import opened JsonText

  type Scalar = json: Json | !json.Array? && !json.Object? witness Null

  /** The longest an array can be. */
  const LONGEST_ARRAY: nat := 4294967295

  type ArrayLength = n: nat | n <= 4294967295

  datatype Value = Leaf(scalar: Scalar) | Branch(node: Node)

  /** An object, or an array of some length. */
  datatype Node = Node(fields: seq<Field>, length: Option<ArrayLength>)

  datatype Field = Field(key: string, value: Value)

  const EMPTY_OBJECT := Node([], None)

  // --- Members under their keys ---

  function Find(fields: seq<Field>, key: string): (found: Option<Value>)
    ensures found.Some? ==> exists i :: 0 <= i < |fields| && fields[i] == Field(key, found.value)
    ensures found.None? ==> forall i :: 0 <= i < |fields| ==> fields[i].key != key
  {
    if fields == [] then None
    else if fields[0].key == key then Some(fields[0].value)
    else
      var found := Find(fields[1..], key);
      assert forall i :: 0 <= i < |fields| - 1 ==> fields[1..][i] == fields[i + 1];
      found
  }

  /** In place when the key exists, appended otherwise. */
  function SetKey(fields: seq<Field>, key: string, value: Value): (updated: seq<Field>)
    ensures forall other :: Find(updated, other) == if other == key then Some(value) else Find(fields, other)
  {
    if fields == [] then [Field(key, value)]
    else if fields[0].key == key then [Field(key, value)] + fields[1..]
    else [fields[0]] + SetKey(fields[1..], key, value)
  }

  function DeleteKey(fields: seq<Field>, key: string): (updated: seq<Field>)
    ensures forall other :: Find(updated, other) == if other == key then None else Find(fields, other)
  {
    if fields == [] then []
    else if fields[0].key == key then DeleteKey(fields[1..], key)
    else [fields[0]] + DeleteKey(fields[1..], key)
  }

  lemma {:induction false} SetKeyTwice(fields: seq<Field>, key: string, first: Value, second: Value)
    ensures SetKey(SetKey(fields, key, first), key, second) == SetKey(fields, key, second)
  {
    if fields != [] && fields[0].key != key {
      SetKeyTwice(fields[1..], key, first, second);
    }
  }

  lemma {:induction false} DeleteAfterSet(fields: seq<Field>, key: string, value: Value)
    ensures DeleteKey(SetKey(fields, key, value), key) == DeleteKey(fields, key)
  {
    if fields != [] && fields[0].key != key {
      DeleteAfterSet(fields[1..], key, value);
    }
  }

  lemma {:induction false} DeleteAbsent(fields: seq<Field>, key: string)
    requires Find(fields, key).None?
    ensures DeleteKey(fields, key) == fields
  {
    if fields != [] {
      DeleteAbsent(fields[1..], key);
    }
  }

  lemma {:induction false} SetSameValue(fields: seq<Field>, key: string)
    requires Find(fields, key).Some?
    ensures SetKey(fields, key, Find(fields, key).value) == fields
  {
    if fields != [] && fields[0].key != key {
      SetSameValue(fields[1..], key);
    }
  }

  // --- Where a key stands ---

  predicate IsFirstField(fields: seq<Field>, key: string, i: nat) {
    i < |fields| && fields[i].key == key && forall k :: 0 <= k < i ==> fields[k].key != key
  }

  ghost predicate IsPlaceOf(fields: seq<Field>, key: string, place: Option<nat>) {
    match place
    case None => forall k :: 0 <= k < |fields| ==> fields[k].key != key
    case Some(i) => IsFirstField(fields, key, i)
  }

  lemma TailPlace(fields: seq<Field>, key: string, place: Option<nat>)
    requires IsPlaceOf(fields, key, place) && fields != [] && fields[0].key != key
    ensures place.Some? ==> place.value > 0
    ensures IsPlaceOf(fields[1..], key, if place.None? then None else Some(place.value - 1))
  {
    var tail := fields[1..];
    assert forall k :: 0 <= k < |tail| ==> tail[k] == fields[k + 1];
  }

  lemma {:induction false} FindPlace(fields: seq<Field>, key: string, place: Option<nat>)
    requires IsPlaceOf(fields, key, place)
    ensures Find(fields, key) == if place.None? then None else Some(fields[place.value].value)
    decreases |fields|
  {
    if fields != [] && fields[0].key != key {
      TailPlace(fields, key, place);
      FindPlace(fields[1..], key, if place.None? then None else Some(place.value - 1));
    }
  }

  lemma {:induction false} SetKeyPlace(fields: seq<Field>, key: string, value: Value, place: Option<nat>)
    requires IsPlaceOf(fields, key, place)
    ensures SetKey(fields, key, value) ==
              if place.None? then fields + [Field(key, value)] else fields[place.value := Field(key, value)]
    decreases |fields|
  {
    if fields != [] && fields[0].key != key {
      TailPlace(fields, key, place);
      SetKeyPlace(fields[1..], key, value, if place.None? then None else Some(place.value - 1));
      SetKeyLater(fields, key, value);
      UpdatedLater(fields, Field(key, value), place);
    } else {
      SetKeyFirst(fields, key, value);
    }
  }

  lemma SetKeyLater(fields: seq<Field>, key: string, value: Value)
    requires fields != [] && fields[0].key != key
    ensures SetKey(fields, key, value) == [fields[0]] + SetKey(fields[1..], key, value)
  {
  }

  lemma SetKeyFirst(fields: seq<Field>, key: string, value: Value)
    requires fields == [] || fields[0].key == key
    ensures SetKey(fields, key, value) == if fields == [] then [Field(key, value)] else fields[0 := Field(key, value)]
  {
  }

  lemma UpdatedLater(fields: seq<Field>, field: Field, place: Option<nat>)
    requires fields != [] && (place.Some? ==> 0 < place.value < |fields|)
    ensures [fields[0]] + (if place.None? then fields[1..] + [field] else fields[1..][place.value - 1 := field]) ==
              if place.None? then fields + [field] else fields[place.value := field]
  {
  }

  lemma {:induction false} DeleteKeyPlace(fields: seq<Field>, key: string, i: nat)
    requires IsFirstField(fields, key, i)
    ensures DeleteKey(fields, key) == DeleteKey(fields[..i] + fields[i + 1..], key)
    decreases |fields|
  {
    if i == 0 {
      assert fields[..0] + fields[1..] == fields[1..];
    } else {
      assert forall k :: 0 <= k < |fields[1..]| ==> fields[1..][k] == fields[k + 1];
      DeleteKeyPlace(fields[1..], key, i - 1);
      var shorter := fields[..i] + fields[i + 1..];
      assert shorter[0] == fields[0] && shorter[1..] == fields[1..][..i - 1] + fields[1..][i..];
    }
  }

  // --- Array indices ---

  /** The key is an array index: the decimal form of a number below the longest length. */
  function IndexOf(key: string): (index: Option<nat>)
    ensures index.Some? ==> index.value < LONGEST_ARRAY && key == Digits(index.value)
  {
    if AreDigits(key) && DigitsValue(key) < LONGEST_ARRAY && Digits(DigitsValue(key)) == key then Some(DigitsValue(key)) else None
  }

  lemma IndexOfDigits(i: nat)
    requires i < LONGEST_ARRAY
    ensures IndexOf(Digits(i)) == Some(i)
  {
    DigitsReadBack(i);
  }

  lemma DigitsDiffer(i: nat, j: nat)
    requires i != j
    ensures Digits(i) != Digits(j)
  {
    DigitsReadBack(i);
    DigitsReadBack(j);
  }

  // --- One object or array ---

  /** An array's `length` is no member like the others. */
  predicate IsLengthKey(node: Node, key: string) {
    node.length.Some? && key == "length"
  }

  /** `container[key]`. */
  function Read(node: Node, key: string): Option<Value> {
    if IsLengthKey(node, key) then Some(Leaf(Number(node.length.value))) else Find(node.fields, key)
  }

  /** The length of an array that gains a member. */
  function Longer(length: Option<ArrayLength>, key: string): Option<ArrayLength> {
    var index := IndexOf(key);
    if length.Some? && index.Some? && length.value <= index.value then Some(index.value + 1) else length
  }

  function LengthWith(node: Node, key: string): Option<ArrayLength> {
    if Find(node.fields, key).None? then Longer(node.length, key) else node.length
  }

  /** `container[key] = value`. */
  function Put(node: Node, key: string, value: Value): Node
    requires !IsLengthKey(node, key)
  {
    Node(SetKey(node.fields, key, value), LengthWith(node, key))
  }

  /** `delete container[key]`, which leaves an array's length alone. */
  function Drop(node: Node, key: string): Node {
    if IsLengthKey(node, key) then node else node.(fields := DeleteKey(node.fields, key))
  }

  lemma PutAtPlace(node: Node, key: string, value: Value, at: nat)
    requires !IsLengthKey(node, key) && IsFirstField(node.fields, key, at)
    ensures Put(node, key, value) == Node(node.fields[at := Field(key, value)], node.length)
  {
    FindPlace(node.fields, key, Some(at));
    SetKeyPlace(node.fields, key, value, Some(at));
  }

  lemma PutAtEnd(node: Node, key: string, value: Value)
    requires !IsLengthKey(node, key) && Find(node.fields, key).None?
    ensures Put(node, key, value) == Node(node.fields + [Field(key, value)], Longer(node.length, key))
  {
    SetKeyPlace(node.fields, key, value, None);
  }

  /** Setting an element that is not there makes an array reach up to it, at most to the longest there is; nothing else changes a length. */
  lemma PutGrows(node: Node, index: nat, value: Value)
    requires node.length.Some? && Find(node.fields, Digits(index)).None?
    ensures !IsLengthKey(node, Digits(index))
    ensures Put(node, Digits(index), value).length ==
              Some(if index < 4294967295 && node.length.value <= index then index + 1 else node.length.value)
  {
    DigitsReadBack(index);
    assert IsDigit(Digits(index)[0]);
  }

  lemma PutTwice(node: Node, key: string, first: Value, second: Value)
    requires !IsLengthKey(node, key)
    ensures Put(Put(node, key, first), key, second) == Put(node, key, second)
  {
    SetKeyTwice(node.fields, key, first, second);
  }

  lemma DropAfterPut(node: Node, key: string, value: Value)
    requires !IsLengthKey(node, key)
    ensures Drop(Put(node, key, value), key) == Drop(node, key).(length := LengthWith(node, key))
  {
    DeleteAfterSet(node.fields, key, value);
  }

  lemma DropAbsent(node: Node, key: string)
    requires Find(node.fields, key).None?
    ensures Drop(node, key) == node
  {
    DeleteAbsent(node.fields, key);
  }

  lemma PutSame(node: Node, key: string)
    requires !IsLengthKey(node, key) && Find(node.fields, key).Some?
    ensures Put(node, key, Find(node.fields, key).value) == node
  {
    SetSameValue(node.fields, key);
  }

  // --- Cloning: `JSON.parse(JSON.stringify(value))` ---

  function CloneValue(value: Value): Value
    decreases value
  {
    match value
    case Leaf(_) => value
    case Branch(node) => Branch(Clone(node))
  }

  /** An object's members cloned; an array's elements, one for each index below its length, `null` where it has none. */
  function Clone(node: Node): Node
    decreases node
  {
    match node.length
    case None => Node(CloneFields(node.fields), None)
    case Some(length) =>
      Node(seq(length, i requires 0 <= i < length => Field(Digits(i), CloneItem(node.fields, Digits(i)))), node.length)
  }

  function CloneFields(fields: seq<Field>): (clones: seq<Field>)
    ensures |clones| == |fields|
    decreases fields
  {
    if fields == [] then [] else [Field(fields[0].key, CloneValue(fields[0].value))] + CloneFields(fields[1..])
  }

  function CloneItem(fields: seq<Field>, key: string): Value
    decreases fields
  {
    if fields == [] then Leaf(Null)
    else if fields[0].key == key then CloneValue(fields[0].value)
    else CloneItem(fields[1..], key)
  }

  /** What `JSON.stringify` writes of a value. */
  function ToJson(value: Value): Json
    decreases value
  {
    match value
    case Leaf(scalar) => scalar
    case Branch(node) => NodeToJson(node)
  }

  function NodeToJson(node: Node): Json
    decreases node
  {
    match node.length
    case None => Object(FieldsToJson(node.fields))
    case Some(length) => Array(seq(length, i requires 0 <= i < length => ItemToJson(node.fields, Digits(i))))
  }

  function FieldsToJson(fields: seq<Field>): (members: seq<Member>)
    ensures |members| == |fields|
    decreases fields
  {
    if fields == [] then [] else [Member(fields[0].key, ToJson(fields[0].value))] + FieldsToJson(fields[1..])
  }

  function ItemToJson(fields: seq<Field>, key: string): Json
    decreases fields
  {
    if fields == [] then Null
    else if fields[0].key == key then ToJson(fields[0].value)
    else ItemToJson(fields[1..], key)
  }

  /** No array is longer than an array can be. */
  predicate FitsMemory(json: Json)
    decreases json
  {
    match json
    case Array(items) => |items| <= LONGEST_ARRAY && forall i :: 0 <= i < |items| ==> FitsMemory(items[i])
    case Object(members) => forall i :: 0 <= i < |members| ==> FitsMemory(members[i].value)
    case _ => true
  }

  /** What `JSON.parse` makes of a document. */
  function FromJson(json: Json): Value
    requires FitsMemory(json)
    decreases json
  {
    match json
    case Array(items) =>
      Branch(Node(seq(|items|, i requires 0 <= i < |items| => Field(Digits(i), FromJson(items[i]))), Some(|items|)))
    case Object(members) =>
      Branch(Node(seq(|members|, i requires 0 <= i < |members| => Field(members[i].key, FromJson(members[i].value))), None))
    case _ => Leaf(json)
  }

  lemma {:induction false} ItemMeets(fields: seq<Field>, key: string)
    ensures CloneItem(fields, key) == match Find(fields, key) case None => Leaf(Null) case Some(value) => CloneValue(value)
    ensures ItemToJson(fields, key) == match Find(fields, key) case None => Null case Some(value) => ToJson(value)
    decreases |fields|
  {
    if fields != [] && fields[0].key != key {
      ItemMeets(fields[1..], key);
    }
  }

  lemma {:induction false} FieldsMeet(fields: seq<Field>, i: nat)
    requires i < |fields|
    ensures CloneFields(fields)[i] == Field(fields[i].key, CloneValue(fields[i].value))
    ensures FieldsToJson(fields)[i] == Member(fields[i].key, ToJson(fields[i].value))
    decreases |fields|
  {
    if i > 0 {
      FieldsMeet(fields[1..], i - 1);
    }
  }

  /** Cloning is writing as JSON and reading that back. */
  lemma {:induction false} CloneIsFromJson(value: Value)
    ensures FitsMemory(ToJson(value)) && FromJson(ToJson(value)) == CloneValue(value)
    decreases value, 1
  {
    if value.Branch? {
      NodeIsFromJson(value.node);
    }
  }

  lemma {:induction false} NodeIsFromJson(node: Node)
    ensures FitsMemory(NodeToJson(node)) && FromJson(NodeToJson(node)) == Branch(Clone(node))
    decreases node, 0
  {
    if node.length.None? {
      forall i | 0 <= i < |node.fields|
        ensures FitsMemory(FieldsToJson(node.fields)[i].value)
        ensures CloneFields(node.fields)[i] == Field(FieldsToJson(node.fields)[i].key, FromJson(FieldsToJson(node.fields)[i].value))
      {
        FieldsMeet(node.fields, i);
        CloneIsFromJson(node.fields[i].value);
      }
    } else {
      forall i | 0 <= i < node.length.value
        ensures FitsMemory(ItemToJson(node.fields, Digits(i)))
        ensures FromJson(ItemToJson(node.fields, Digits(i))) == CloneItem(node.fields, Digits(i))
      {
        ItemIsFromJson(node.fields, Digits(i));
      }
    }
  }

  lemma {:induction false} ItemIsFromJson(fields: seq<Field>, key: string)
    ensures FitsMemory(ItemToJson(fields, key)) && FromJson(ItemToJson(fields, key)) == CloneItem(fields, key)
    decreases fields, 0
  {
    if fields != [] {
      if fields[0].key == key {
        CloneIsFromJson(fields[0].value);
      } else {
        ItemIsFromJson(fields[1..], key);
      }
    }
  }

  /** The clone is what parsing the written text gives. */
  lemma CloneIsParsedText(value: Value)
    ensures ParseJson(Stringify(ToJson(value))) == Some(ToJson(value))
    ensures FitsMemory(ToJson(value)) && FromJson(ToJson(value)) == CloneValue(value)
  {
    CloneIsFaithful(ToJson(value));
    CloneIsFromJson(value);
  }

  lemma {:induction false} FindIn(fields: seq<Field>, i: nat)
    requires i < |fields| && forall k :: 0 <= k < i ==> fields[k].key != fields[i].key
    ensures Find(fields, fields[i].key) == Some(fields[i].value)
  {
    FindPlace(fields, fields[i].key, Some(i));
  }

  /** A document that was parsed is written as it was. */
  lemma {:induction false} ToJsonOfParsed(json: Json)
    requires FitsMemory(json)
    ensures ToJson(FromJson(json)) == json
    decreases json
  {
    match json
    case Array(items) =>
      var fields := FromJson(json).node.fields;
      forall i | 0 <= i < |items|
        ensures ItemToJson(fields, Digits(i)) == items[i]
      {
        ToJsonOfParsed(items[i]);
        ItemMeets(fields, Digits(i));
        forall k | 0 <= k < i
          ensures fields[k].key != fields[i].key
        {
          DigitsDiffer(k, i);
        }
        FindIn(fields, i);
      }
    case Object(members) =>
      var fields := FromJson(json).node.fields;
      forall i | 0 <= i < |members|
        ensures FieldsToJson(fields)[i] == members[i]
      {
        ToJsonOfParsed(members[i].value);
        FieldsMeet(fields, i);
      }
    case _ =>
  }

  /** A value as `JSON.parse` leaves it: cloning it changes nothing. */
  predicate IsParsed(value: Value) {
    CloneValue(value) == value
  }

  lemma ParsedIsParsed(json: Json)
    requires FitsMemory(json)
    ensures IsParsed(FromJson(json))
  {
    ToJsonOfParsed(json);
    CloneIsFromJson(FromJson(json));
  }

  lemma CloneIsParsed(value: Value)
    ensures IsParsed(CloneValue(value))
  {
    CloneIsFromJson(value);
    ParsedIsParsed(ToJson(value));
  }

  // --- What JavaScript can hold ---

  predicate HasDistinctKeys(fields: seq<Field>) {
    forall i, j :: 0 <= i < j < |fields| ==> fields[i].key != fields[j].key
  }

  /** An array's elements stand below its length, and its `length` is no member. */
  predicate IsWithin(length: Option<ArrayLength>, key: string) {
    length.Some? ==> key != "length" && (IndexOf(key).Some? ==> IndexOf(key).value < length.value)
  }

  /** What an object or array in memory can be: no key twice, at any depth, and no element behind an array's end. */
  predicate IsProper(value: Value)
    decreases value
  {
    match value
    case Leaf(_) => true
    case Branch(node) =>
      && HasDistinctKeys(node.fields)
      && forall i :: 0 <= i < |node.fields| ==> IsProper(node.fields[i].value) && IsWithin(node.length, node.fields[i].key)
  }

  lemma DistinctIsFound(fields: seq<Field>, i: nat)
    requires i < |fields| && HasDistinctKeys(fields)
    ensures Find(fields, fields[i].key) == Some(fields[i].value)
  {
    FindIn(fields, i);
  }

  lemma {:induction false} CloneIsProper(value: Value)
    requires IsProper(value)
    ensures IsProper(CloneValue(value))
    decreases value
  {
    if value.Branch? {
      var node, clone := value.node, Clone(value.node);
      if node.length.None? {
        forall i | 0 <= i < |node.fields|
          ensures IsProper(clone.fields[i].value) && clone.fields[i].key == node.fields[i].key
        {
          FieldsMeet(node.fields, i);
          CloneIsProper(node.fields[i].value);
        }
      } else {
        ArrayCloneIsProper(node);
      }
    }
  }

  lemma {:induction false} ArrayCloneIsProper(node: Node)
    requires IsProper(Branch(node)) && node.length.Some?
    ensures IsProper(Branch(Clone(node)))
    decreases node
  {
    var fields := Clone(node).fields;
    forall i | 0 <= i < node.length.value
      ensures IsProper(fields[i].value) && IsWithin(node.length, fields[i].key)
    {
      IndexOfDigits(i);
      LengthIsNoIndex();
      ItemIsProper(node.fields, Digits(i));
    }
    forall i, j | 0 <= i < j < node.length.value
      ensures fields[i].key != fields[j].key
    {
      DigitsDiffer(i, j);
    }
  }

  lemma LengthIsNoIndex()
    ensures IndexOf("length").None?
  {
  }

  lemma {:induction false} ItemIsProper(fields: seq<Field>, key: string)
    requires forall i :: 0 <= i < |fields| ==> IsProper(fields[i].value)
    ensures IsProper(CloneItem(fields, key))
    decreases fields
  {
    if fields != [] {
      if fields[0].key == key {
        CloneIsProper(fields[0].value);
      } else {
        ItemIsProper(fields[1..], key);
      }
    }
  }

  // --- What a clone holds ---

  /** The key names an element below the array's length. */
  predicate IsElement(length: ArrayLength, key: string) {
    IndexOf(key).Some? && IndexOf(key).value < length
  }

  lemma FindInArrayClone(node: Node, key: string)
    requires node.length.Some?
    ensures Find(Clone(node).fields, key) == if IsElement(node.length.value, key) then Some(CloneItem(node.fields, key)) else None
  {
    var length, fields := node.length.value, Clone(node).fields;
    assert forall i :: 0 <= i < length ==> fields[i] == Field(Digits(i), CloneItem(node.fields, Digits(i)));
    if IsElement(length, key) {
      var i := IndexOf(key).value;
      forall k | 0 <= k < i
        ensures fields[k].key != fields[i].key
      {
        DigitsDiffer(k, i);
      }
      FindIn(fields, i);
    } else {
      forall i | 0 <= i < length
        ensures fields[i].key != key
      {
        IndexOfDigits(i);
      }
      FindPlace(fields, key, None);
    }
  }

  lemma {:induction false} FindInObjectClone(fields: seq<Field>, key: string)
    ensures Find(CloneFields(fields), key) == match Find(fields, key) case None => None case Some(value) => Some(CloneValue(value))
    decreases |fields|
  {
    if fields != [] && fields[0].key != key {
      FindInObjectClone(fields[1..], key);
    }
  }

  lemma {:induction false} ObjectCloneOfSet(fields: seq<Field>, key: string, value: Value)
    requires CloneFields(fields) == fields
    ensures CloneFields(SetKey(fields, key, value)) == SetKey(fields, key, CloneValue(value))
    decreases |fields|
  {
    if fields != [] {
      assert CloneFields(fields)[1..] == CloneFields(fields[1..]);
      if fields[0].key != key {
        ObjectCloneOfSet(fields[1..], key, value);
        assert SetKey(fields, key, value)[1..] == SetKey(fields[1..], key, value);
      } else {
        assert SetKey(fields, key, value)[1..] == fields[1..];
      }
    }
  }

  /** The members of a parsed array are its elements, in order. */
  lemma ParsedArrayHolds(node: Node, key: string)
    requires IsParsed(Branch(node)) && node.length.Some?
    ensures Find(node.fields, key).Some? <==> IsElement(node.length.value, key)
    ensures |node.fields| == node.length.value
    ensures IsElement(node.length.value, key) ==> IsFirstField(node.fields, key, IndexOf(key).value)
  {
    var length := node.length.value;
    FindInArrayClone(node, key);
    assert forall i :: 0 <= i < length ==> node.fields[i].key == Digits(i);
    if IsElement(length, key) {
      forall k | 0 <= k < IndexOf(key).value
        ensures node.fields[k].key != key
      {
        DigitsDiffer(k, IndexOf(key).value);
      }
    }
  }

  lemma ParsedChild(node: Node, key: string)
    requires IsParsed(Branch(node)) && Find(node.fields, key).Some?
    ensures IsParsed(Find(node.fields, key).value)
  {
    if node.length.None? {
      FindInObjectClone(node.fields, key);
    } else {
      FindInArrayClone(node, key);
      ItemMeets(node.fields, key);
    }
  }

  // --- Cloning after a member is put ---

  /** The key is no member of the array and no index: what is put there is no part of the array's text. */
  predicate IsStray(node: Node, key: string) {
    node.length.Some? && Find(node.fields, key).None? && IndexOf(key).None?
  }

  /** The key is an index at or behind the array's end: what is put there makes the array longer. */
  predicate Lengthens(node: Node, key: string) {
    node.length.Some? && Find(node.fields, key).None? && IndexOf(key).Some?
  }

  lemma ElementsAfterSet(fields: seq<Field>, key: string, value: Value, other: string)
    ensures CloneItem(SetKey(fields, key, value), other) == if other == key then CloneValue(value) else CloneItem(fields, other)
  {
    ItemMeets(SetKey(fields, key, value), other);
    ItemMeets(fields, other);
  }

  lemma ElementReplaced(node: Node, at: nat, value: Value)
    requires IsParsed(Branch(node)) && node.length.Some? && at < node.length.value && Digits(at) != "length"
    ensures at < |node.fields|
    ensures Put(node, Digits(at), value) == node.(fields := node.fields[at := Field(Digits(at), value)])
  {
    IndexOfDigits(at);
    ParsedArrayHolds(node, Digits(at));
    SetKeyPlace(node.fields, Digits(at), value, Some(at));
  }

  lemma ItemAt(node: Node, i: nat)
    requires IsParsed(Branch(node)) && node.length.Some? && i < node.length.value
    ensures i < |node.fields| && node.fields[i] == Field(Digits(i), CloneItem(node.fields, Digits(i)))
  {
    assert node.fields[i] == Clone(node).fields[i];
  }

  lemma ArrayCloneKeepsPut(node: Node, at: nat, value: Value, put: Node)
    requires IsParsed(Branch(node)) && node.length.Some? && at < node.length.value && Digits(at) != "length"
    requires put == Put(node, Digits(at), value)
    ensures Clone(put) == Put(node, Digits(at), CloneValue(value))
  {
    var length := node.length.value;
    ElementReplaced(node, at, value);
    ElementReplaced(node, at, CloneValue(value));
    IndexOfDigits(at);
    ParsedArrayHolds(node, Digits(at));
    var goal := node.fields[at := Field(Digits(at), CloneValue(value))];
    forall i | 0 <= i < length
      ensures Field(Digits(i), CloneItem(put.fields, Digits(i))) == goal[i]
    {
      ItemAfterPut(node, at, value, i);
    }
    ArrayCloneIs(put, goal);
  }

  lemma ArrayCloneIs(node: Node, fields: seq<Field>)
    requires node.length.Some? && |fields| == node.length.value
    requires forall i :: 0 <= i < |fields| ==> fields[i] == Field(Digits(i), CloneItem(node.fields, Digits(i)))
    ensures Clone(node) == Node(fields, node.length)
  {
  }

  lemma ItemAfterPut(node: Node, at: nat, value: Value, i: nat)
    requires IsParsed(Branch(node)) && node.length.Some? && i < node.length.value
    ensures i < |node.fields|
    ensures Field(Digits(i), CloneItem(SetKey(node.fields, Digits(at), value), Digits(i))) ==
              if i == at then Field(Digits(at), CloneValue(value)) else node.fields[i]
  {
    ElementsAfterSet(node.fields, Digits(at), value, Digits(i));
    ItemAt(node, i);
    if i != at {
      DigitsDiffer(i, at);
    }
  }

  lemma CloneKeepsPut(node: Node, key: string, value: Value)
    requires IsParsed(Branch(node)) && !IsLengthKey(node, key) && !IsStray(node, key) && !Lengthens(node, key)
    ensures Clone(Put(node, key, value)) == Put(node, key, CloneValue(value))
  {
    if node.length.None? {
      assert Clone(node) == node;
      ObjectCloneOfSet(node.fields, key, value);
    } else {
      ParsedArrayHolds(node, key);
      var at := IndexOf(key).value;
      assert key == Digits(at);
      ArrayCloneKeepsPut(node, at, value, Put(node, key, value));
    }
  }

  lemma ArraysCloneAlike(a: Node, b: Node)
    requires a.length.Some? && a.length == b.length
    requires forall i :: 0 <= i < a.length.value ==> CloneItem(a.fields, Digits(i)) == CloneItem(b.fields, Digits(i))
    ensures Clone(a) == Clone(b)
  {
  }

  lemma CloneDropsStray(node: Node, key: string, value: Value)
    requires IsParsed(Branch(node)) && !IsLengthKey(node, key) && IsStray(node, key)
    ensures Clone(Put(node, key, value)) == node
  {
    forall i | 0 <= i < node.length.value
      ensures CloneItem(SetKey(node.fields, key, value), Digits(i)) == CloneItem(node.fields, Digits(i))
    {
      ElementsAfterSet(node.fields, key, value, Digits(i));
      IndexOfDigits(i);
    }
    ArraysCloneAlike(Put(node, key, value), node);
  }

  lemma CloneIsLonger(node: Node, key: string, value: Value)
    requires IsParsed(Branch(node)) && !IsLengthKey(node, key) && Lengthens(node, key)
    ensures Clone(Put(node, key, value)).length == Some(IndexOf(key).value + 1)
    ensures node.length.value <= IndexOf(key).value
  {
    ParsedArrayHolds(node, key);
  }
}
