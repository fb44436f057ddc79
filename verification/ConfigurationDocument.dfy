// The configuration document as the console holds it: objects and arrays in
// memory that are cloned and then changed in place
// (apps/daemon/console/configuration-model.js). Each operation is tied to the
// function on values in ConfigurationPaths.

module ConfigurationDocument {
  import opened Wrappers
  import opened Numerals
  import opened JsonText
  import opened ConfigurationValues
  import opened ConfigurationPaths

  /** What a member in memory holds: another object or array, or a value that is never changed in place. */
  datatype Slot = Plain(value: Scalar) | Nested(child: ConfigurationObject)

  datatype Property = Property(key: string, slot: Slot)

  /** An object, or an array of some length. */
  class ConfigurationObject {
    var properties: seq<Property>
    var length: Option<ArrayLength>
    ghost var fields: seq<Field>
    ghost var repr: set<ConfigurationObject>

    ghost function Content(): Node
      reads this
    {
      Node(fields, length)
    }

    /** Every property holds what its field says, and no object in memory is reached through two properties. */
    ghost predicate Valid()
      reads this, repr
      decreases repr
    {
      && this in repr
      && |fields| == |properties|
      && (forall i :: 0 <= i < |properties| ==> Holds(properties[i], fields[i]))
      && (forall i, j :: 0 <= i < j < |properties| ==> Apart(properties[i].slot, properties[j].slot))
    }

    ghost predicate Holds(property: Property, field: Field)
      reads this, repr
      requires this in repr
      decreases repr, 0
    {
      && property.key == field.key
      && match property.slot
         case Plain(value) => field.value == Leaf(value)
         case Nested(child) =>
           && child in repr && child.repr <= repr && this !in child.repr
           && child.Valid() && field.value == Branch(child.Content())
    }

    constructor (length: Option<ArrayLength>)
      ensures Valid() && fresh(repr) && repr == {this} && Content() == Node([], length) && properties == []
    {
      this.length := length;
      properties, fields, repr := [], [], {this};
    }

    /** Where the first property of a name stands. */
    method FindProperty(key: string) returns (found: Option<nat>)
      requires Valid()
      ensures match found
              case None => Find(fields, key).None?
              case Some(i) => IsFirstField(fields, key, i)
    {
      for i := 0 to |properties|
        invariant forall k :: 0 <= k < i ==> fields[k].key != key
      {
        if properties[i].key == key {
          return Some(i);
        }
      }
      return None;
    }

    /** `container[key] = value`, for a value built for this container alone. */
    method PutSlot(key: string, slot: Slot, ghost value: Value)
      requires Valid() && IsBuilt(slot, value, repr) && !IsLengthKey(Content(), key)
      modifies this
      ensures Valid() && Content() == Put(old(Content()), key, value) && repr == old(repr) + ReprOf(slot)
    {
      var found := FindProperty(key);
      if found.Some? {
        PutAtPlace(Content(), key, value, found.value);
        ReplaceAt(found.value, key, slot, value);
      } else {
        PutAtEnd(Content(), key, value);
        Append(key, slot, value);
        Lengthen(key);
      }
    }

    /** An array that gained an element behind its end is longer. */
    method Lengthen(key: string)
      requires Valid()
      modifies this`length
      ensures Valid() && fields == old(fields) && repr == old(repr)
      ensures length == Longer(old(length), key)
    {
      var index := IndexOf(key);
      if length.Some? && index.Some? && length.value <= index.value {
        length := Some(index.value + 1);
      }
    }

    method ReplaceAt(i: nat, key: string, slot: Slot, ghost value: Value)
      requires Valid() && IsBuilt(slot, value, repr) && i < |properties|
      modifies this
      ensures Valid() && Content() == Node(old(fields)[i := Field(key, value)], old(length)) && repr == old(repr) + ReprOf(slot)
    {
      ghost var before := properties;
      properties := properties[i := Property(key, slot)];
      fields := fields[i := Field(key, value)];
      repr := repr + ReprOf(slot);
      forall k | 0 <= k < |properties|
        ensures Holds(properties[k], fields[k])
      {
        if k != i {
          assert properties[k] == before[k];
        }
      }
    }

    method Append(key: string, slot: Slot, ghost value: Value)
      requires Valid() && IsBuilt(slot, value, repr)
      modifies this
      ensures Valid() && Content() == Node(old(fields) + [Field(key, value)], old(length)) && repr == old(repr) + ReprOf(slot)
    {
      ghost var before := properties;
      properties := properties + [Property(key, slot)];
      fields := fields + [Field(key, value)];
      repr := repr + ReprOf(slot);
      forall k | 0 <= k < |properties|
        ensures Holds(properties[k], fields[k])
      {
        if k < |before| {
          assert properties[k] == before[k];
        }
      }
    }

    method RemoveAt(i: nat)
      requires Valid() && i < |properties|
      modifies this
      ensures Valid() && Content() == Node(old(fields)[..i] + old(fields)[i + 1..], old(length)) && repr == old(repr)
    {
      ghost var before, was := properties, fields;
      properties := properties[..i] + properties[i + 1..];
      fields := fields[..i] + fields[i + 1..];
      forall k | 0 <= k < |properties|
        ensures Holds(properties[k], fields[k])
      {
        var place := if k < i then k else k + 1;
        assert properties[k] == before[place] && fields[k] == was[place];
      }
    }

    /** `delete container[key]`. */
    method Delete(key: string)
      requires Valid()
      modifies this
      ensures Valid() && Content() == Drop(old(Content()), key) && repr == old(repr)
    {
      if length.Some? && key == "length" {
        return;
      }
      ghost var goal := DeleteKey(fields, key);
      var found := FindProperty(key);
      while found.Some?
        invariant Valid() && repr == old(repr) && length == old(length) && DeleteKey(fields, key) == goal
        invariant found.Some? ==> IsFirstField(fields, key, found.value)
        invariant found.None? ==> Find(fields, key).None?
        decreases |fields|
      {
        DeleteKeyPlace(fields, key, found.value);
        RemoveAt(found.value);
        found := FindProperty(key);
      }
      DeleteAbsent(fields, key);
    }
  }

  ghost function ReprOf(slot: Slot): set<ConfigurationObject>
    reads if slot.Nested? then {slot.child} else {}
  {
    if slot.Nested? then slot.child.repr else {}
  }

  /** No object in memory belongs to both. */
  ghost predicate Apart(a: Slot, b: Slot)
    reads if a.Nested? then {a.child} else {}
    reads if b.Nested? then {b.child} else {}
  {
    a.Nested? && b.Nested? ==> a.child.repr !! b.child.repr
  }

  /** The slot holds the value, in objects none of which are among the others. */
  ghost predicate IsBuilt(slot: Slot, value: Value, others: set<ConfigurationObject>)
    reads if slot.Nested? then {slot.child} + slot.child.repr else {}
  {
    match slot
    case Plain(plain) => value == Leaf(plain)
    case Nested(child) => child.Valid() && child.repr !! others && value == Branch(child.Content())
  }

  // --- Cloning: `JSON.parse(JSON.stringify(document))` ---

  /** What `JSON.stringify` sees in an object in memory. */
  method Snapshot(document: ConfigurationObject) returns (json: Json)
    requires document.Valid()
    ensures json == NodeToJson(document.Content())
    decreases document.repr, 3
  {
    if document.length.None? {
      json := SnapshotMembers(document);
    } else {
      json := SnapshotItems(document, document.length.value);
    }
  }

  method SnapshotAt(document: ConfigurationObject, at: nat) returns (json: Json)
    requires document.Valid() && at < |document.properties|
    ensures json == ToJson(document.fields[at].value)
    decreases document.repr, 0
  {
    assert document.Holds(document.properties[at], document.fields[at]);
    match document.properties[at].slot {
      case Plain(value) => json := value;
      case Nested(child) => json := Snapshot(child);
    }
  }

  method SnapshotMembers(document: ConfigurationObject) returns (json: Json)
    requires document.Valid() && document.length.None?
    ensures json == NodeToJson(document.Content())
    decreases document.repr, 1
  {
    var members: seq<Member> := [];
    var i := 0;
    while i < |document.properties|
      invariant 0 <= i <= |document.properties|
      invariant members == FieldsToJson(document.fields)[..i]
    {
      var value := SnapshotAt(document, i);
      assert document.Holds(document.properties[i], document.fields[i]);
      FieldsMeet(document.fields, i);
      members := members + [Member(document.properties[i].key, value)];
      i := i + 1;
    }
    return Object(members);
  }

  method SnapshotItems(document: ConfigurationObject, length: ArrayLength) returns (json: Json)
    requires document.Valid() && document.length == Some(length)
    ensures json == NodeToJson(document.Content())
    decreases document.repr, 2
  {
    ghost var node := document.Content();
    var items: seq<Json> := [];
    var i := 0;
    while i < length
      invariant 0 <= i <= length && |items| == i
      invariant AreItemsOf(node, items)
    {
      var item := SnapshotItem(document, Digits(i));
      items := items + [item];
      i := i + 1;
    }
    ItemsAreArray(node, items);
    return Array(items);
  }

  /** The first elements of an array, as its text shows them. */
  ghost predicate AreItemsOf(node: Node, items: seq<Json>) {
    forall k :: 0 <= k < |items| ==> items[k] == ItemToJson(node.fields, Digits(k))
  }

  lemma ItemsAreArray(node: Node, items: seq<Json>)
    requires node.length.Some? && |items| == node.length.value && AreItemsOf(node, items)
    ensures Array(items) == NodeToJson(node)
  {
  }

  /** The element under a key, or `null` where there is none. */
  method SnapshotItem(document: ConfigurationObject, key: string) returns (item: Json)
    requires document.Valid()
    ensures item == ItemToJson(document.fields, key)
    decreases document.repr, 1
  {
    var found := document.FindProperty(key);
    ItemMeets(document.fields, key);
    if found.None? {
      return Null;
    }
    FindPlace(document.fields, key, found);
    item := SnapshotAt(document, found.value);
  }

  /** What `JSON.parse` makes of a text. */
  method BuildSlot(json: Json, ghost others: set<ConfigurationObject>) returns (slot: Slot)
    requires FitsMemory(json) && forall other :: other in others ==> allocated(other)
    ensures IsBuilt(slot, FromJson(json), others) && fresh(ReprOf(slot))
    decreases json, 1
  {
    match json {
      case Object(members) =>
        var child := BuildObject(members);
        return Nested(child);
      case Array(items) =>
        var child := BuildArray(items);
        return Nested(child);
      case _ =>
        return Plain(json);
    }
  }

  method BuildObject(members: seq<Member>) returns (document: ConfigurationObject)
    requires FitsMemory(Object(members))
    ensures document.Valid() && fresh(document.repr) && Branch(document.Content()) == FromJson(Object(members))
    decreases members, 0
  {
    ghost var goal := FromJson(Object(members)).node.fields;
    document := new ConfigurationObject(None);
    var i := 0;
    while i < |members|
      invariant 0 <= i <= |members|
      invariant document.Valid() && fresh(document.repr) && document.Content() == Node(goal[..i], None)
    {
      var slot := BuildSlot(members[i].value, document.repr);
      document.Append(members[i].key, slot, FromJson(members[i].value));
      i := i + 1;
    }
  }

  method BuildArray(items: seq<Json>) returns (document: ConfigurationObject)
    requires FitsMemory(Array(items))
    ensures document.Valid() && fresh(document.repr) && Branch(document.Content()) == FromJson(Array(items))
    decreases items, 0
  {
    ghost var goal := FromJson(Array(items)).node.fields;
    document := new ConfigurationObject(Some(|items|));
    var i := 0;
    while i < |items|
      invariant 0 <= i <= |items|
      invariant document.Valid() && fresh(document.repr) && document.Content() == Node(goal[..i], Some(|items|))
    {
      var slot := BuildSlot(items[i], document.repr);
      document.Append(Digits(i), slot, FromJson(items[i]));
      i := i + 1;
    }
  }

  method CloneConfigurationDocument(document: ConfigurationObject) returns (clone: ConfigurationObject)
    requires document.Valid()
    ensures clone.Valid() && fresh(clone.repr) && clone.Content() == Clone(document.Content())
  {
    var json := Snapshot(document);
    NodeIsFromJson(document.Content());
    match json {
      case Object(members) => clone := BuildObject(members);
      case Array(items) => clone := BuildArray(items);
    }
  }

  // --- Setting in place ---

  /** All properties but one hold what their fields say, in objects of their own among the others. */
  ghost predicate OthersHold(document: ConfigurationObject, at: nat, others: set<ConfigurationObject>)
    reads others
    requires document in others
  {
    && |document.fields| == |document.properties|
    && (forall k :: 0 <= k < |document.properties| && k != at ==>
          HoldsAmong(document, document.properties[k], document.fields[k], others))
    && (forall i, j :: 0 <= i < j < |document.properties| && i != at && j != at ==>
          ApartAmong(document.properties[i].slot, document.properties[j].slot, others))
  }

  ghost predicate HoldsAmong(document: ConfigurationObject, property: Property, field: Field, others: set<ConfigurationObject>)
    reads others
    requires document in others
  {
    && property.key == field.key
    && match property.slot
       case Plain(value) => field.value == Leaf(value)
       case Nested(child) =>
         && child in others && child.repr <= others && document !in child.repr
         && child.Valid() && field.value == Branch(child.Content())
  }

  ghost predicate ApartAmong(a: Slot, b: Slot, others: set<ConfigurationObject>)
    reads others
  {
    a.Nested? && b.Nested? ==> a.child in others && b.child in others && a.child.repr !! b.child.repr
  }

  /** A container's child, and all that is not the child's. */
  lemma ChildStandsApart(document: ConfigurationObject, at: nat)
    requires document.Valid() && at < |document.properties| && document.properties[at].slot.Nested?
    ensures var child := document.properties[at].slot.child;
            && child.Valid() && child in document.repr && child.repr <= document.repr && document !in child.repr
            && document.fields[at].value == Branch(child.Content()) && document.fields[at].key == document.properties[at].key
            && OthersHold(document, at, document.repr - child.repr)
  {
    var child := document.properties[at].slot.child;
    assert document.Holds(document.properties[at], document.fields[at]);
    forall k | 0 <= k < |document.properties| && k != at
      ensures HoldsAmong(document, document.properties[k], document.fields[k], document.repr - child.repr)
    {
      assert document.Holds(document.properties[k], document.fields[k]);
      if k < at {
        assert Apart(document.properties[k].slot, document.properties[at].slot);
      } else {
        assert Apart(document.properties[at].slot, document.properties[k].slot);
      }
      if document.properties[k].slot.Nested? {
        var sibling := document.properties[k].slot.child;
        assert sibling.Valid();
        assert sibling in sibling.repr;
        assert sibling.repr !! child.repr;
      }
    }
    forall i, j | 0 <= i < j < |document.properties| && i != at && j != at
      ensures ApartAmong(document.properties[i].slot, document.properties[j].slot, document.repr - child.repr)
    {
      assert Apart(document.properties[i].slot, document.properties[j].slot);
      assert HoldsAmong(document, document.properties[i], document.fields[i], document.repr - child.repr);
      assert HoldsAmong(document, document.properties[j], document.fields[j], document.repr - child.repr);
    }
  }

  /** After a change inside the child its new content is recorded, and the container is whole again. */
  ghost method RecordChild(document: ConfigurationObject, at: nat, child: ConfigurationObject, others: set<ConfigurationObject>)
    requires document in others && OthersHold(document, at, others)
    requires at < |document.properties| && document.properties[at].slot == Nested(child)
    requires document.properties[at].key == document.fields[at].key
    requires child.Valid() && child.repr !! others
    modifies document
    ensures document.properties == old(document.properties)
    ensures document.Valid() && document.repr == others + child.repr
    ensures document.Content() ==
              Node(old(document.fields)[at := Field(document.properties[at].key, Branch(child.Content()))], old(document.length))
  {
    ghost var before := document.fields;
    assert forall k :: 0 <= k < |document.properties| && k != at ==>
      HoldsAmong(document, document.properties[k], before[k], others);
    assert forall i, j :: 0 <= i < j < |document.properties| && i != at && j != at ==>
      ApartAmong(document.properties[i].slot, document.properties[j].slot, others);
    document.fields := before[at := Field(document.properties[at].key, Branch(child.Content()))];
    document.repr := others + child.repr;
    forall k | 0 <= k < |document.properties|
      ensures document.Holds(document.properties[k], document.fields[k])
    {
    }
  }

  /** The walk of a set: objects are made where no container stands, and the last one gets the value. */
  method SetWithin(document: ConfigurationObject, path: seq<string>, value: Json)
    requires document.Valid() && AvoidsLength(document.Content(), path) && FitsMemory(value)
    modifies document.repr
    ensures document.Valid() && fresh(document.repr - old(document.repr))
    ensures document.Content() == SetAt(old(document.Content()), path, FromJson(value))
    decreases |path|, 1
  {
    if |path| <= 1 {
      var slot := BuildSlot(value, document.repr);
      document.PutSlot(LastKey(path), slot, FromJson(value));
      return;
    }
    var found := document.FindProperty(path[0]);
    if found.Some? && document.properties[found.value].slot.Nested? {
      SetInChild(document, found.value, path, value);
    } else {
      SetInNewChild(document, found, path, value);
    }
  }

  method SetInNewChild(document: ConfigurationObject, found: Option<nat>, path: seq<string>, value: Json)
    requires document.Valid() && |path| > 1 && AvoidsLength(document.Content(), path) && FitsMemory(value)
    requires match found
             case None => Find(document.fields, path[0]).None?
             case Some(i) => IsFirstField(document.fields, path[0], i) && document.properties[i].slot.Plain?
    modifies document.repr
    ensures document.Valid() && fresh(document.repr - old(document.repr))
    ensures document.Content() == SetAt(old(document.Content()), path, FromJson(value))
    decreases |path|, 0
  {
    if found.Some? {
      assert document.Holds(document.properties[found.value], document.fields[found.value]);
      FindPlace(document.fields, path[0], found);
    }
    SetStartsChild(document.Content(), path, FromJson(value));
    var child := NewChild(path[1..], value, document.repr);
    document.PutSlot(path[0], Nested(child), Branch(child.Content()));
  }

  method NewChild(path: seq<string>, value: Json, ghost others: set<ConfigurationObject>) returns (child: ConfigurationObject)
    requires AvoidsLength(EMPTY_OBJECT, path) && FitsMemory(value)
    requires forall other :: other in others ==> allocated(other)
    ensures child.Valid() && fresh(child.repr) && child.repr !! others
    ensures child.Content() == SetAt(EMPTY_OBJECT, path, FromJson(value))
    decreases |path|, 2
  {
    child := new ConfigurationObject(None);
    SetWithin(child, path, value);
  }

  lemma SetStartsChild(node: Node, path: seq<string>, value: Value)
    requires |path| > 1 && AvoidsLength(node, path) && ChildNode(node, path[0]) == EMPTY_OBJECT
    ensures AvoidsLength(EMPTY_OBJECT, path[1..])
    ensures SetAt(node, path, value) == Put(node, path[0], Branch(SetAt(EMPTY_OBJECT, path[1..], value)))
  {
  }

  lemma SetUnfoldsAt(node: Node, path: seq<string>, value: Value, child: Node, at: nat)
    requires |path| > 1 && AvoidsLength(node, path)
    requires IsFirstField(node.fields, path[0], at) && node.fields[at].value == Branch(child)
    ensures AvoidsLength(child, path[1..])
    ensures SetAt(node, path, value) ==
              node.(fields := node.fields[at := Field(path[0], Branch(SetAt(child, path[1..], value)))])
  {
    FindPlace(node.fields, path[0], Some(at));
    SetUnfolds(node, path, value, child);
    PutAtPlace(node, path[0], Branch(SetAt(child, path[1..], value)), at);
  }

  lemma SetUnfolds(node: Node, path: seq<string>, value: Value, child: Node)
    requires |path| > 1 && AvoidsLength(node, path) && Find(node.fields, path[0]) == Some(Branch(child))
    ensures AvoidsLength(child, path[1..])
    ensures SetAt(node, path, value) == Put(node, path[0], Branch(SetAt(child, path[1..], value)))
  {
  }

  method SetInChild(document: ConfigurationObject, at: nat, path: seq<string>, value: Json)
    requires document.Valid() && |path| > 1 && at < |document.properties| && document.properties[at].slot.Nested?
    requires IsFirstField(document.fields, path[0], at)
    requires AvoidsLength(document.Content(), path) && FitsMemory(value)
    modifies document.repr
    ensures document.Valid() && fresh(document.repr - old(document.repr))
    ensures document.Content() == SetAt(old(document.Content()), path, FromJson(value))
    decreases |path|, 0
  {
    var child := document.properties[at].slot.child;
    ghost var others := document.repr - child.repr;
    ChildStandsApart(document, at);
    SetUnfoldsAt(document.Content(), path, FromJson(value), child.Content(), at);
    SetWithin(child, path[1..], value);
    RecordChild(document, at, child, others);
  }

  // --- Removing in place ---

  lemma DeleteUnfoldsAt(node: Node, path: seq<string>, child: Node, at: nat)
    requires |path| > 1 && !IsLengthKey(node, path[0])
    requires IsFirstField(node.fields, path[0], at) && node.fields[at].value == Branch(child)
    ensures DeleteAt(node, path) == node.(fields := node.fields[at := Field(path[0], Branch(DeleteAt(child, path[1..])))])
    ensures ParentNode(node, path) == ParentNode(child, path[1..]) && LastKey(path) == LastKey(path[1..])
  {
    FindPlace(node.fields, path[0], Some(at));
    DeleteUnfolds(node, path, child);
    PutAtPlace(node, path[0], Branch(DeleteAt(child, path[1..])), at);
  }

  /** What a delete found: whether a container was there to delete from, and whether that is empty now. */
  datatype Deleted = NoParent | FromParent(isEmptied: bool)

  ghost function DeletedFrom(node: Node, path: seq<string>): Deleted {
    match ParentNode(node, path)
    case None => NoParent
    case Some(parent) => FromParent(Drop(parent, LastKey(path)).fields == [])
  }

  /** Walks to the parent and deletes the member there. */
  method DeleteWithin(document: ConfigurationObject, path: seq<string>) returns (deleted: Deleted)
    requires document.Valid()
    modifies document.repr
    ensures document.Valid() && document.repr == old(document.repr)
    ensures document.Content() == DeleteAt(old(document.Content()), path)
    ensures deleted == DeletedFrom(old(document.Content()), path)
    decreases |path|
  {
    if |path| <= 1 {
      document.Delete(LastKey(path));
      return FromParent(document.properties == []);
    }
    if document.length.Some? && path[0] == "length" {
      return NoParent;
    }
    var found := document.FindProperty(path[0]);
    if found.Some? {
      FindPlace(document.fields, path[0], found);
      assert document.Holds(document.properties[found.value], document.fields[found.value]);
      if document.properties[found.value].slot.Nested? {
        deleted := DeleteInChild(document, found.value, path);
        return;
      }
    }
    return NoParent;
  }

  method DeleteInChild(document: ConfigurationObject, at: nat, path: seq<string>) returns (deleted: Deleted)
    requires document.Valid() && |path| > 1 && at < |document.properties| && document.properties[at].slot.Nested?
    requires IsFirstField(document.fields, path[0], at) && !IsLengthKey(document.Content(), path[0])
    modifies document.repr
    ensures document.Valid() && document.repr == old(document.repr)
    ensures document.Content() == DeleteAt(old(document.Content()), path)
    ensures deleted == DeletedFrom(old(document.Content()), path)
    decreases |path|, 0
  {
    var child := document.properties[at].slot.child;
    ghost var others := document.repr - child.repr;
    ChildStandsApart(document, at);
    DeleteUnfoldsAt(document.Content(), path, child.Content(), at);
    deleted := DeleteWithin(child, path[1..]);
    RecordChild(document, at, child, others);
  }

  // --- The two operations ---

  /** A copy with the value set; the document it is given stays as it is. */
  method WithValue(document: ConfigurationObject, path: seq<string>, value: Json) returns (updated: ConfigurationObject)
    requires document.Valid() && AvoidsLength(Clone(document.Content()), path) && FitsMemory(value)
    ensures updated.Valid() && fresh(updated.repr)
    ensures updated.Content() == WithConfigurationValue(document.Content(), path, FromJson(value))
  {
    updated := CloneConfigurationDocument(document);
    SetWithin(updated, path, value);
  }

  /** A copy with the value removed, and after it each parent that this empties; the document it is given stays as it is. */
  method WithoutValue(document: ConfigurationObject, path: seq<string>) returns (updated: ConfigurationObject)
    requires document.Valid()
    ensures updated.Valid() && fresh(updated.repr)
    ensures updated.Content() == WithoutConfigurationValue(document.Content(), path)
    decreases |path|
  {
    updated := CloneConfigurationDocument(document);
    var parentPath := ParentPath(path);
    ParentNodeIsValue(updated.Content(), path);
    ghost var cloned := updated.Content();
    var deleted := DeleteWithin(updated, path);
    if deleted.NoParent? {
      NoParentNoDelete(cloned, path);
      return;
    }
    var isRequiredObject := parentPath == REQUIRED_OBJECT_PATH;
    if |parentPath| > 0 && !isRequiredObject && deleted.isEmptied {
      updated := WithoutValue(updated, parentPath);
    }
  }

  lemma {:induction false} NoParentNoDelete(node: Node, path: seq<string>)
    requires ParentNode(node, path).None?
    ensures DeleteAt(node, path) == node
    decreases |path|
  {
    match Read(node, path[0])
    case Some(Branch(child)) =>
      NoParentNoDelete(child, path[1..]);
      PutSame(node, path[0]);
    case _ =>
  }
}
