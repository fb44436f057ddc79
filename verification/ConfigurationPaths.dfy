// Reading, setting and removing a setting at a path of a configuration document
// (apps/daemon/console/configuration-model.js). Each change starts from a clone.
// Removing cascades: a parent left empty goes too, except the `runtime` object
// the format requires.

module ConfigurationPaths {
  import opened Wrappers
  import JsonText
  import opened Numerals
  import opened ConfigurationValues

  /** `path[path.length - 1]`: for the empty path JavaScript reads `undefined`, which names a member "undefined". */
  function LastKey(path: seq<string>): string {
    if path == [] then "undefined" else path[|path| - 1]
  }

  /** `path.slice(0, -1)`. */
  function ParentPath(path: seq<string>): seq<string> {
    if path == [] then [] else path[..|path| - 1]
  }

  // --- Reading ---

  function ValueAt(value: Value, path: seq<string>): Option<Value>
    decreases |path|
  {
    if path == [] then Some(value)
    else
      match value
      case Leaf(_) => None
      case Branch(node) =>
        match Read(node, path[0])
        case None => None
        case Some(inner) => ValueAt(inner, path[1..])
  }

  method ConfigurationValueAtPath(document: Value, path: seq<string>) returns (value: Option<Value>)
    ensures value == ValueAt(document, path)
  {
    var current := document;
    var i := 0;
    while i < |path|
      invariant 0 <= i <= |path|
      invariant ValueAt(document, path) == ValueAt(current, path[i..])
    {
      assert path[i..][0] == path[i] && path[i..][1..] == path[i + 1..];
      if current.Leaf? {
        return None;
      }
      var found := Read(current.node, path[i]);
      if found.None? {
        return None;
      }
      current := found.value;
      i := i + 1;
    }
    return Some(current);
  }

  /** No array on the way is asked for its `length`, which a set could only resize or be refused by. */
  predicate AvoidsLength(node: Node, path: seq<string>)
    decreases |path|
  {
    path == [] || (!IsLengthKey(node, path[0]) &&
      match Find(node.fields, path[0])
      case Some(Branch(child)) => AvoidsLength(child, path[1..])
      case _ => true)
  }

  // --- Setting ---

  /** The container a set descends into: the one there, or the fresh object that replaces anything else. */
  function ChildNode(node: Node, key: string): Node {
    match Find(node.fields, key)
    case Some(Branch(child)) => child
    case _ => EMPTY_OBJECT
  }

  function SetAt(node: Node, path: seq<string>, value: Value): Node
    requires AvoidsLength(node, path)
    decreases |path|
  {
    if |path| <= 1 then Put(node, LastKey(path), value)
    else Put(node, path[0], Branch(SetAt(ChildNode(node, path[0]), path[1..], value)))
  }

  function WithConfigurationValue(node: Node, path: seq<string>, value: Value): Node
    requires AvoidsLength(Clone(node), path)
  {
    SetAt(Clone(node), path, value)
  }

  // --- Removing ---

  /** Deletes one member, wherever its parent is; nothing happens without that parent. */
  function DeleteAt(node: Node, path: seq<string>): Node
    decreases |path|
  {
    if |path| <= 1 then Drop(node, LastKey(path))
    else
      match Read(node, path[0])
      case Some(Branch(child)) => Put(node, path[0], Branch(DeleteAt(child, path[1..])))
      case _ => node
  }

  const REQUIRED_OBJECT_PATH: seq<string> := ["runtime"]

  /** The source's recursion: clone, delete, then remove the parent as well if that emptied it. */
  function WithoutConfigurationValue(node: Node, path: seq<string>): Node
    decreases |path|
  {
    var updated, parentPath := Clone(node), ParentPath(path);
    match ValueAt(Branch(updated), parentPath)
    case Some(Branch(parent)) =>
      var deleted := DeleteAt(updated, path);
      var isEmptied := Drop(parent, LastKey(path)).fields == [];
      if parentPath != [] && parentPath != REQUIRED_OBJECT_PATH && isEmptied then WithoutConfigurationValue(deleted, parentPath)
      else deleted
    case _ => updated
  }

  /** The same removal walked from the top: prune on the way back up. */
  function Prune(node: Node, path: seq<string>, isTop: bool): Node
    decreases |path|
  {
    if |path| <= 1 then Drop(node, LastKey(path))
    else
      match Read(node, path[0])
      case Some(Branch(child)) =>
        if ReachesParent(child, path[1..]) then PruneChild(node, path[0], Prune(child, path[1..], false), isTop) else node
      case _ => node
  }

  /** Puts a pruned child back, unless that leaves nothing of it. */
  function PruneChild(node: Node, key: string, pruned: Node, isTop: bool): Node
    requires !IsLengthKey(node, key)
  {
    if pruned.fields == [] && !(isTop && key == "runtime") then Drop(node, key) else Put(node, key, Branch(pruned))
  }

  /** The container the path's last key would be a member of, when it exists. */
  function ParentNode(node: Node, path: seq<string>): Option<Node>
    decreases |path|
  {
    if |path| <= 1 then Some(node)
    else
      match Read(node, path[0])
      case Some(Branch(child)) => ParentNode(child, path[1..])
      case _ => None
  }

  predicate ReachesParent(node: Node, path: seq<string>) {
    ParentNode(node, path).Some?
  }

  lemma {:induction false} ParentNodeIsValue(node: Node, path: seq<string>)
    ensures ParentNode(node, path) ==
              match ValueAt(Branch(node), ParentPath(path)) case Some(Branch(parent)) => Some(parent) case _ => None
    decreases |path|
  {
    if |path| > 1 {
      assert ParentPath(path)[1..] == ParentPath(path[1..]);
      match Read(node, path[0])
      case Some(Branch(child)) => ParentNodeIsValue(child, path[1..]);
      case Some(other) => assert ValueAt(Branch(node), ParentPath(path)) == ValueAt(other, ParentPath(path[1..]));
      case None =>
    }
  }

  /** One cascade step: deleting at the path, then pruning its emptied parent, is pruning the path. */
  function CascadeStep(node: Node, path: seq<string>, isTop: bool): Node
    requires ReachesParent(node, path)
  {
    var parentPath, parent := ParentPath(path), ParentNode(node, path).value;
    if parentPath != [] && !(isTop && parentPath == REQUIRED_OBJECT_PATH) && Drop(parent, LastKey(path)).fields == [] then
      Prune(DeleteAt(node, path), parentPath, isTop)
    else DeleteAt(node, path)
  }

  lemma {:induction false} PruneStep(node: Node, path: seq<string>, isTop: bool)
    requires ReachesParent(node, path) && path != []
    ensures Prune(node, path, isTop) == CascadeStep(node, path, isTop)
    decreases |path|
  {
    if |path| == 2 {
      PruneStepBelowTop(node, path, isTop, Read(node, path[0]).value.node);
    } else if |path| > 2 {
      var child := Read(node, path[0]).value.node;
      PruneStep(child, path[1..], false);
      PruneStepDeeper(node, path, isTop, child);
    }
  }

  lemma PruneUnfolds(node: Node, path: seq<string>, isTop: bool, child: Node)
    requires |path| > 1 && Read(node, path[0]) == Some(Branch(child)) && ReachesParent(child, path[1..])
    ensures Prune(node, path, isTop) == PruneChild(node, path[0], Prune(child, path[1..], false), isTop)
  {
  }

  lemma DeleteUnfolds(node: Node, path: seq<string>, child: Node)
    requires |path| > 1 && Read(node, path[0]) == Some(Branch(child))
    ensures DeleteAt(node, path) == Put(node, path[0], Branch(DeleteAt(child, path[1..])))
    ensures ParentNode(node, path) == ParentNode(child, path[1..])
  {
  }

  /** A child put back where one was leaves the rest as it was. */
  lemma ChildReplaced(node: Node, key: string, first: Node, second: Node, isTop: bool)
    requires !IsLengthKey(node, key) && Find(node.fields, key).Some?
    ensures Drop(Put(node, key, Branch(first)), key) == Drop(node, key)
    ensures PruneChild(Put(node, key, Branch(first)), key, second, isTop) == PruneChild(node, key, second, isTop)
    ensures Read(Put(node, key, Branch(first)), key) == Some(Branch(first))
  {
    DropAfterPut(node, key, Branch(first));
    PutTwice(node, key, Branch(first), Branch(second));
  }

  lemma PruneStepBelowTop(node: Node, path: seq<string>, isTop: bool, child: Node)
    requires |path| == 2 && Read(node, path[0]) == Some(Branch(child))
    ensures ReachesParent(node, path) && Prune(node, path, isTop) == CascadeStep(node, path, isTop)
  {
    var key, deleted, parentPath := path[0], Drop(child, path[1]), ParentPath(path);
    assert parentPath == [key] && path[1..] == [path[1]];
    PruneUnfolds(node, path, isTop, child);
    DeleteUnfolds(node, path, child);
    assert Prune(child, [path[1]], false) == deleted == DeleteAt(child, [path[1]]);
    ChildReplaced(node, key, deleted, deleted, isTop);
    PruneTop(Put(node, key, Branch(deleted)), key, isTop);
  }

  lemma PruneTop(node: Node, key: string, isTop: bool)
    ensures Prune(node, [key], isTop) == Drop(node, key)
  {
  }

  lemma PruneStepDeeper(node: Node, path: seq<string>, isTop: bool, child: Node)
    requires |path| > 2 && Read(node, path[0]) == Some(Branch(child)) && ReachesParent(child, path[1..])
    requires Prune(child, path[1..], false) == CascadeStep(child, path[1..], false)
    ensures ReachesParent(node, path) && Prune(node, path, isTop) == CascadeStep(node, path, isTop)
  {
    var key, inner, parentPath := path[0], path[1..], ParentPath(path);
    var deleted := DeleteAt(child, inner);
    assert parentPath[0] == key && parentPath[1..] == ParentPath(inner) && LastKey(inner) == LastKey(path);
    PruneUnfolds(node, path, isTop, child);
    DeleteUnfolds(node, path, child);
    DeleteLeavesSomething(child, inner);
    if Drop(ParentNode(child, inner).value, LastKey(inner)).fields == [] {
      var pruned := Prune(deleted, ParentPath(inner), false);
      DeleteKeepsParent(child, inner);
      ChildReplaced(node, key, deleted, pruned, isTop);
      PruneUnfolds(Put(node, key, Branch(deleted)), parentPath, isTop, deleted);
    }
  }

  /** A delete further down leaves the child that leads there. */
  lemma DeleteLeavesSomething(node: Node, path: seq<string>)
    requires ReachesParent(node, path) && |path| > 1
    ensures DeleteAt(node, path).fields != []
  {
    DeleteUnfolds(node, path, Read(node, path[0]).value.node);
    assert Find(DeleteAt(node, path).fields, path[0]).Some?;
  }

  /** Deleting a member leaves the path to its parent, and that parent's parent, in place. */
  lemma {:induction false} DeleteKeepsParent(node: Node, path: seq<string>)
    requires ReachesParent(node, path)
    ensures ReachesParent(DeleteAt(node, path), path)
    ensures ReachesParent(DeleteAt(node, path), ParentPath(path))
    decreases |path|
  {
    if |path| > 1 {
      assert ParentPath(path)[1..] == ParentPath(path[1..]);
      DeleteKeepsParent(Read(node, path[0]).value.node, path[1..]);
    }
  }

  lemma ParsedChildNode(node: Node, key: string, child: Node)
    requires IsParsed(Branch(node)) && Read(node, key) == Some(Branch(child))
    ensures Clone(child) == child && IsParsed(Branch(child)) && Clone(node) == node
    ensures !IsLengthKey(node, key) && Find(node.fields, key) == Some(Branch(child))
  {
    ParsedChild(node, key);
  }

  /** Cloning again between two steps of the cascade makes no difference to what the next step leaves. */
  lemma {:induction false} CloneBetweenSteps(node: Node, path: seq<string>, isTop: bool)
    requires IsParsed(Branch(node)) && ReachesParent(node, path) && |path| > 1
    ensures ReachesParent(Clone(DeleteAt(node, path)), ParentPath(path))
    ensures Prune(Clone(DeleteAt(node, path)), ParentPath(path), isTop) == Prune(DeleteAt(node, path), ParentPath(path), isTop)
    decreases |path|
  {
    var child := Read(node, path[0]).value.node;
    ParsedChildNode(node, path[0], child);
    if |path| == 2 {
      CloneBeforeTop(node, path, isTop, child);
    } else {
      assert ParentPath(path)[1..] == ParentPath(path[1..]);
      CloneBetweenSteps(child, path[1..], false);
      CloneBeforeDeeper(node, path, isTop, child, DeleteAt(child, path[1..]));
    }
  }

  lemma CloneBeforeTop(node: Node, path: seq<string>, isTop: bool, child: Node)
    requires IsParsed(Branch(node)) && |path| == 2 && Read(node, path[0]) == Some(Branch(child))
    ensures ReachesParent(Clone(DeleteAt(node, path)), ParentPath(path))
    ensures Prune(Clone(DeleteAt(node, path)), ParentPath(path), isTop) == Prune(DeleteAt(node, path), ParentPath(path), isTop)
  {
    var key, deleted := path[0], DeleteAt(child, path[1..]);
    assert ParentPath(path) == [key];
    DeleteUnfolds(node, path, child);
    CloneKeepsPut(node, key, Branch(deleted));
    ChildReplaced(node, key, deleted, deleted, isTop);
    ChildReplaced(node, key, Clone(deleted), deleted, isTop);
  }

  lemma CloneBeforeDeeper(node: Node, path: seq<string>, isTop: bool, child: Node, deleted: Node)
    requires IsParsed(Branch(node)) && |path| > 2 && Read(node, path[0]) == Some(Branch(child))
    requires deleted == DeleteAt(child, path[1..]) && ReachesParent(child, path[1..])
    requires ReachesParent(Clone(deleted), ParentPath(path[1..]))
    requires Prune(Clone(deleted), ParentPath(path[1..]), false) == Prune(deleted, ParentPath(path[1..]), false)
    ensures ReachesParent(Clone(DeleteAt(node, path)), ParentPath(path))
    ensures Prune(Clone(DeleteAt(node, path)), ParentPath(path), isTop) == Prune(DeleteAt(node, path), ParentPath(path), isTop)
  {
    var key, parentPath := path[0], ParentPath(path);
    var pruned := Prune(deleted, ParentPath(path[1..]), false);
    assert parentPath[0] == key && parentPath[1..] == ParentPath(path[1..]);
    DeleteUnfolds(node, path, child);
    CloneKeepsPut(node, key, Branch(deleted));
    DeleteKeepsParent(child, path[1..]);
    ChildReplaced(node, key, deleted, pruned, isTop);
    ChildReplaced(node, key, Clone(deleted), pruned, isTop);
    PruneUnfolds(Put(node, key, Branch(deleted)), parentPath, isTop, deleted);
    PruneUnfolds(Put(node, key, Branch(Clone(deleted))), parentPath, isTop, Clone(deleted));
  }

  /** The source's bottom-up recursion and the single walk agree. */
  lemma {:induction false} RemoveIsPrune(node: Node, path: seq<string>)
    ensures WithoutConfigurationValue(node, path) == Prune(Clone(node), path, true)
    decreases |path|
  {
    var updated, parentPath := Clone(node), ParentPath(path);
    CloneIsParsed(Branch(node));
    ParentNodeIsValue(updated, path);
    if ReachesParent(updated, path) && path != [] {
      PruneStep(updated, path, true);
      if parentPath != [] {
        RemoveIsPrune(DeleteAt(updated, path), parentPath);
        CloneBetweenSteps(updated, path, true);
      }
    }
  }

  // --- The laws ---

  /** After a set, the path reads the value set; only the empty path, which names no member, misses it. */
  lemma GetAfterSet(node: Node, path: seq<string>, value: Value)
    requires AvoidsLength(Clone(node), path)
    ensures ValueAt(Branch(WithConfigurationValue(node, path, value)), path) == Some(value) <==> path != []
  {
    ReadsWhatIsSet(Clone(node), path, value);
  }

  lemma {:induction false} ReadsWhatIsSet(node: Node, path: seq<string>, value: Value)
    requires AvoidsLength(node, path)
    ensures ValueAt(Branch(SetAt(node, path, value)), path) == Some(value) <==> path != []
    decreases |path|
  {
    if path == [] {
      var updated := SetAt(node, path, value);
      assert Find(updated.fields, "undefined") == Some(value);
      assert value != Branch(updated);
    } else if |path| > 1 {
      ReadsWhatIsSet(ChildNode(node, path[0]), path[1..], value);
    }
  }

  /** The path's last key asks an array for its length. */
  predicate ReadsLength(node: Node, path: seq<string>) {
    path != [] &&
      match ValueAt(Branch(node), ParentPath(path))
      case Some(Branch(parent)) => IsLengthKey(parent, LastKey(path))
      case _ => false
  }

  /** After a removal the path reads nothing, unless it asks an array for its length, which is not removed. */
  lemma RemoveMakesAbsent(node: Node, path: seq<string>)
    ensures var removed := WithoutConfigurationValue(node, path);
            ValueAt(Branch(removed), path).None? <==> path != [] && !ReadsLength(removed, path)
  {
    RemoveIsPrune(node, path);
    if path != [] {
      PruneMakesAbsent(Clone(node), path, true);
    }
  }

  lemma LengthBelow(node: Node, path: seq<string>, child: Node)
    requires |path| > 1 && Read(node, path[0]) == Some(Branch(child))
    ensures ReadsLength(node, path) <==> ReadsLength(child, path[1..])
    ensures ValueAt(Branch(node), path) == ValueAt(Branch(child), path[1..])
  {
    var parentPath, inner := ParentPath(path), path[1..];
    assert parentPath[0] == path[0] && parentPath[1..] == ParentPath(inner) && LastKey(path) == LastKey(inner);
    ParentBelow(node, parentPath, child);
  }

  lemma ParentBelow(node: Node, path: seq<string>, child: Node)
    requires path != [] && Read(node, path[0]) == Some(Branch(child))
    ensures ValueAt(Branch(node), path) == ValueAt(Branch(child), path[1..])
  {
  }

  lemma {:induction false} PruneMakesAbsent(node: Node, path: seq<string>, isTop: bool)
    requires path != []
    ensures var pruned := Prune(node, path, isTop);
            ValueAt(Branch(pruned), path).None? <==> !ReadsLength(pruned, path)
    decreases |path|
  {
    if |path| == 1 {
      assert ParentPath(path) == [] && path[1..] == [];
    } else {
      match Read(node, path[0])
      case Some(Branch(child)) =>
        if ReachesParent(child, path[1..]) {
          var pruned := Prune(child, path[1..], false);
          PruneMakesAbsent(child, path[1..], false);
          if !(pruned.fields == [] && !(isTop && path[0] == "runtime")) {
            LengthBelow(Put(node, path[0], Branch(pruned)), path, pruned);
          } else {
            NothingBelow(Drop(node, path[0]), path);
          }
        } else {
          UnreachedIsAbsent(node, path);
        }
      case _ => NothingBelow(node, path);
    }
  }

  lemma NothingBelow(node: Node, path: seq<string>)
    requires |path| > 1 && !(Read(node, path[0]).Some? && Read(node, path[0]).value.Branch?)
    ensures ValueAt(Branch(node), path).None? && !ReadsLength(node, path)
  {
    var parentPath := ParentPath(path);
    assert parentPath[0] == path[0];
    match Read(node, path[0])
    case None =>
    case Some(other) => assert ValueAt(Branch(node), parentPath) == ValueAt(other, parentPath[1..]);
  }

  lemma {:induction false} AvoidingReadsNoLength(node: Node, path: seq<string>)
    requires AvoidsLength(node, path)
    ensures !ReadsLength(node, path)
    decreases |path|
  {
    if |path| == 1 {
      assert ParentPath(path) == [];
    } else if |path| > 1 {
      match Read(node, path[0])
      case Some(Branch(child)) =>
        AvoidingReadsNoLength(child, path[1..]);
        LengthBelow(node, path, child);
      case _ => NothingBelow(node, path);
    }
  }

  lemma {:induction false} UnreachedIsAbsent(node: Node, path: seq<string>)
    requires !ReachesParent(node, path)
    ensures ValueAt(Branch(node), path).None? && !ReadsLength(node, path)
    decreases |path|
  {
    match Read(node, path[0])
    case Some(Branch(child)) =>
      UnreachedIsAbsent(child, path[1..]);
      LengthBelow(node, path, child);
    case _ => NothingBelow(node, path);
  }

  /** Neither path leads through the other. */
  predicate AreIncomparable(p: seq<string>, q: seq<string>) {
    !(p <= q) && !(q <= p)
  }

  lemma PrefixTails(p: seq<string>, q: seq<string>)
    requires p != [] && q != [] && p[0] == q[0]
    ensures p[1..] <= q[1..] <==> p <= q
  {
    assert p == [p[0]] + p[1..] && q == [p[0]] + q[1..];
    if p[1..] <= q[1..] {
      assert q[..|p|] == [p[0]] + q[1..][..|p| - 1];
    }
    if p <= q {
      assert q[1..][..|p| - 1] == q[..|p|][1..];
    }
  }

  lemma IncomparableTails(p: seq<string>, q: seq<string>)
    requires AreIncomparable(p, q)
    ensures p != [] && q != []
    ensures p[0] == q[0] ==> AreIncomparable(p[1..], q[1..])
    ensures p[0] == q[0] ==> |p| > 1 && |q| > 1
  {
    if p[0] == q[0] {
      PrefixTails(p, q);
      PrefixTails(q, p);
    }
  }

  /** A set leaves every path alone that neither leads to the setting nor through it. */
  lemma SetLeavesOthers(node: Node, path: seq<string>, value: Value, other: seq<string>)
    requires AvoidsLength(Clone(node), path) && AvoidsLength(Clone(node), other)
    requires AreIncomparable(path, other)
    ensures ValueAt(Branch(WithConfigurationValue(node, path, value)), other) == ValueAt(Branch(Clone(node)), other)
  {
    SetAtLeavesOthers(Clone(node), path, value, other);
  }

  lemma {:induction false} SetAtLeavesOthers(node: Node, path: seq<string>, value: Value, other: seq<string>)
    requires AvoidsLength(node, path) && AvoidsLength(node, other) && AreIncomparable(path, other)
    ensures ValueAt(Branch(SetAt(node, path, value)), other) == ValueAt(Branch(node), other)
    decreases |path|
  {
    IncomparableTails(path, other);
    if path[0] == other[0] {
      var child := ChildNode(node, path[0]);
      SetAtLeavesOthers(child, path[1..], value, other[1..]);
      OtherBelow(node, other, child, SetAt(child, path[1..], value));
    }
  }

  lemma OtherBelow(node: Node, other: seq<string>, child: Node, written: Node)
    requires |other| > 1 && AvoidsLength(node, other) && child == ChildNode(node, other[0])
    requires ValueAt(Branch(written), other[1..]) == ValueAt(Branch(child), other[1..])
    ensures ValueAt(Branch(Put(node, other[0], Branch(written))), other) == ValueAt(Branch(node), other)
  {
    assert ValueAt(Branch(EMPTY_OBJECT), other[1..]).None?;
  }

  /** A removal leaves every such path alone too, even when its pruning cascades. */
  lemma RemoveLeavesOthers(node: Node, path: seq<string>, other: seq<string>)
    requires AvoidsLength(Clone(node), other) && AreIncomparable(path, other)
    ensures ValueAt(Branch(WithoutConfigurationValue(node, path)), other) == ValueAt(Branch(Clone(node)), other)
  {
    RemoveIsPrune(node, path);
    PruneLeavesOthers(Clone(node), path, true, other);
  }

  lemma {:induction false} PruneKeepsLength(node: Node, path: seq<string>, isTop: bool)
    ensures Prune(node, path, isTop).length == node.length
  {
  }

  lemma {:induction false} PruneLeavesOthers(node: Node, path: seq<string>, isTop: bool, other: seq<string>)
    requires AvoidsLength(node, other) && AreIncomparable(path, other)
    ensures ValueAt(Branch(Prune(node, path, isTop)), other) == ValueAt(Branch(node), other)
    decreases |path|
  {
    IncomparableTails(path, other);
    if path[0] == other[0] {
      match Find(node.fields, path[0])
      case Some(Branch(child)) =>
        if ReachesParent(child, path[1..]) {
          PruneLeavesOthers(child, path[1..], false, other[1..]);
          PruneKeepsLength(child, path[1..], false);
        }
      case _ =>
    }
  }

  // --- Setting and removing ---

  /** The containers a removal of `path` may prune: those on the way to it, apart from `runtime`. */
  predicate MayBePruned(prefix: seq<string>) {
    prefix != [] && prefix != REQUIRED_OBJECT_PATH
  }

  /** A container on the way survives: it is not empty, or pruning spares it, or it was not there and pruning takes it. */
  predicate IsRestorable(container: Option<Value>, mayBePruned: bool) {
    match container
    case None => mayBePruned
    case Some(Branch(inner)) => inner.fields != [] || !mayBePruned
    case Some(Leaf(_)) => false
  }

  /** On the way stands an array, and the next key names nothing there and is no index. */
  predicate MeetsStray(node: Node, path: seq<string>, i: nat)
    requires i < |path|
  {
    match ValueAt(Branch(node), path[..i])
    case Some(Branch(container)) => IsStray(container, path[i])
    case _ => false
  }

  /** On the way stands an array, and the next key is an index at or behind its end. */
  predicate MeetsEnd(node: Node, path: seq<string>, i: nat)
    requires i < |path|
  {
    match ValueAt(Branch(node), path[..i])
    case Some(Branch(container)) => Lengthens(container, path[i])
    case _ => false
  }

  /**
    * What a caller can check before setting `path`: that setting and removing
    * it restores the document. A setting under a name that is no index of an
    * array never reaches the document's text, so removing what was put further
    * down finds nothing to remove and nothing to prune.
    */
  predicate IsUndoable(node: Node, path: seq<string>) {
    if path == [] then Find(node.fields, "undefined").None?
    else
      || (exists i :: 0 <= i < |path| - 1 && MeetsStray(node, path, i))
      || (&& ValueAt(Branch(node), path).None?
          && (forall i :: 0 < i < |path| ==> IsRestorable(ValueAt(Branch(node), path[..i]), MayBePruned(path[..i])))
          && (forall i :: 0 <= i < |path| ==> !MeetsEnd(node, path, i)))
  }

  /** The setting is put below a name that is no index of an array, walked from the top. */
  predicate IsLost(node: Node, path: seq<string>)
    decreases |path|
  {
    |path| > 1 && (IsStray(node, path[0]) ||
      match Find(node.fields, path[0])
      case Some(Branch(child)) => IsLost(child, path[1..])
      case _ => false)
  }

  /** The other condition, walked from the top. */
  predicate UndoableFrom(node: Node, path: seq<string>, isTop: bool)
    decreases |path|
  {
    if |path| <= 1 then Find(node.fields, LastKey(path)).None? && !Lengthens(node, LastKey(path))
    else
      var mayBePruned := !(isTop && path[0] == "runtime");
      match Find(node.fields, path[0])
      case None => mayBePruned && !Lengthens(node, path[0])
      case Some(Branch(child)) => (child.fields != [] || !mayBePruned) && UndoableFrom(child, path[1..], false)
      case Some(Leaf(_)) => false
  }

  lemma ParsedDescends(node: Node, key: string)
    requires IsParsed(Branch(node))
    ensures IsParsed(Branch(ChildNode(node, key)))
  {
    assert IsParsed(Branch(EMPTY_OBJECT));
    if Find(node.fields, key).Some? {
      ParsedChild(node, key);
    }
  }

  /** What is put under a name that is no index of an array is gone from the clone. */
  lemma {:induction false} LostLeavesClone(node: Node, path: seq<string>, value: Value)
    requires IsParsed(Branch(node)) && AvoidsLength(node, path) && IsLost(node, path)
    ensures Clone(SetAt(node, path, value)) == node && !ReachesParent(node, path)
    decreases |path|
  {
    var child := ChildNode(node, path[0]);
    if IsStray(node, path[0]) {
      CloneDropsStray(node, path[0], Branch(SetAt(child, path[1..], value)));
    } else {
      ParsedDescends(node, path[0]);
      LostLeavesClone(child, path[1..], value);
      LostBelow(node, path, value, child);
    }
  }

  lemma LostBelow(node: Node, path: seq<string>, value: Value, child: Node)
    requires |path| > 1 && IsParsed(Branch(node)) && AvoidsLength(node, path) && Find(node.fields, path[0]) == Some(Branch(child))
    requires Clone(SetAt(child, path[1..], value)) == child && !ReachesParent(child, path[1..])
    ensures Clone(SetAt(node, path, value)) == node && !ReachesParent(node, path)
  {
    CloneKeepsPut(node, path[0], Branch(SetAt(child, path[1..], value)));
    PutSame(node, path[0]);
  }

  /** The clone of what a set leaves, one level down. */
  lemma CloneOfSet(node: Node, path: seq<string>, value: Value)
    requires IsParsed(Branch(node)) && AvoidsLength(node, path) && |path| > 1
    requires !IsStray(node, path[0]) && !Lengthens(node, path[0])
    ensures Clone(SetAt(node, path, value)) ==
              Put(node, path[0], Branch(Clone(SetAt(ChildNode(node, path[0]), path[1..], value))))
  {
    CloneKeepsPut(node, path[0], Branch(SetAt(ChildNode(node, path[0]), path[1..], value)));
  }

  lemma CloneFindsPut(node: Node, key: string, value: Value)
    requires IsParsed(Branch(node)) && !IsLengthKey(node, key) && !IsStray(node, key)
    ensures Find(Clone(Put(node, key, value)).fields, key) == Some(CloneValue(value))
    ensures !IsLengthKey(Clone(Put(node, key, value)), key)
  {
    var put := Put(node, key, value);
    if node.length.None? {
      FindInObjectClone(put.fields, key);
    } else {
      ParsedArrayHolds(node, key);
      FindInArrayClone(put, key);
      ItemMeets(put.fields, key);
    }
  }

  /** Unless the setting is lost, its parent is there in the clone. */
  lemma {:induction false} CloneReachesParent(node: Node, path: seq<string>, value: Value)
    requires IsParsed(Branch(node)) && AvoidsLength(node, path) && !IsLost(node, path)
    ensures ReachesParent(Clone(SetAt(node, path, value)), path)
    decreases |path|
  {
    if |path| > 1 {
      var child := ChildNode(node, path[0]);
      ParsedDescends(node, path[0]);
      CloneReachesParent(child, path[1..], value);
      CloneFindsPut(node, path[0], Branch(SetAt(child, path[1..], value)));
    }
  }

  lemma {:induction false} PruneAfterSetInNothing(path: seq<string>, value: Value)
    requires AvoidsLength(EMPTY_OBJECT, path)
    ensures Prune(Clone(SetAt(EMPTY_OBJECT, path, value)), path, false) == EMPTY_OBJECT
    decreases |path|
  {
    assert IsParsed(Branch(EMPTY_OBJECT));
    if |path| > 1 {
      var written := Clone(SetAt(EMPTY_OBJECT, path[1..], value));
      CloneOfSet(EMPTY_OBJECT, path, value);
      CloneReachesParent(EMPTY_OBJECT, path[1..], value);
      PruneAfterSetInNothing(path[1..], value);
      DropAfterPut(EMPTY_OBJECT, path[0], Branch(written));
      PruneUnfolds(Put(EMPTY_OBJECT, path[0], Branch(written)), path, false, written);
      ChildPutAndDropped(EMPTY_OBJECT, path[0], written);
    } else {
      CloneKeepsPut(EMPTY_OBJECT, LastKey(path), value);
      DropAfterPut(EMPTY_OBJECT, LastKey(path), CloneValue(value));
    }
  }

  lemma ChildPutAndDropped(node: Node, key: string, written: Node)
    requires !IsLengthKey(node, key) && !Lengthens(node, key)
    ensures Drop(Put(node, key, Branch(written)), key) == Drop(node, key)
  {
    DropAfterPut(node, key, Branch(written));
  }

  /** Writing back a pruned child, or dropping it when empty, restores the container in these cases only. */
  lemma PrunedChildRestores(node: Node, key: string, written: Node, pruned: Node, isTop: bool)
    requires !IsLengthKey(node, key) && !Lengthens(node, key)
    ensures PruneChild(Put(node, key, Branch(written)), key, pruned, isTop) == node <==>
              var isTaken := pruned.fields == [] && !(isTop && key == "runtime");
              match Find(node.fields, key)
              case None => isTaken
              case Some(existing) => existing == Branch(pruned) && !isTaken
  {
    ChildPutAndDropped(node, key, written);
    PutTwice(node, key, Branch(written), Branch(pruned));
    match Find(node.fields, key)
    case None => DropAbsent(node, key);
    case Some(_) => PutSame(node, key);
  }

  /** One level up: the container is restored in the cases the walked condition names. */
  lemma SetThenPrune(node: Node, path: seq<string>, value: Value, isTop: bool, pruned: Node)
    requires |path| > 1 && IsParsed(Branch(node)) && AvoidsLength(node, path)
    requires !IsStray(node, path[0]) && !Lengthens(node, path[0]) && !IsLost(ChildNode(node, path[0]), path[1..])
    requires pruned == Prune(Clone(SetAt(ChildNode(node, path[0]), path[1..], value)), path[1..], false)
    requires pruned == ChildNode(node, path[0]) <==> UndoableFrom(ChildNode(node, path[0]), path[1..], false)
    ensures Prune(Clone(SetAt(node, path, value)), path, isTop) == node <==> UndoableFrom(node, path, isTop)
  {
    var key, inner, child := path[0], path[1..], ChildNode(node, path[0]);
    var written := Clone(SetAt(child, inner, value));
    CloneOfSet(node, path, value);
    ParsedDescends(node, key);
    CloneReachesParent(child, inner, value);
    PruneUnfolds(Put(node, key, Branch(written)), path, isTop, written);
    PrunedChildRestores(node, key, written, pruned, isTop);
    match Find(node.fields, key)
    case Some(Branch(_)) =>
    case _ => PruneAfterSetInNothing(inner, value);
  }

  lemma LengthenedIsNotRestored(node: Node, path: seq<string>, value: Value, isTop: bool, key: string, written: Value)
    requires IsParsed(Branch(node)) && AvoidsLength(node, path) && Lengthens(node, key) && !IsLengthKey(node, key)
    requires SetAt(node, path, value) == Put(node, key, written)
    ensures Prune(Clone(SetAt(node, path, value)), path, isTop) != node
  {
    CloneIsLonger(node, key, written);
    PruneKeepsLength(Clone(SetAt(node, path, value)), path, isTop);
  }

  lemma SetThenPruneHere(node: Node, path: seq<string>, value: Value, isTop: bool)
    requires |path| <= 1 && IsParsed(Branch(node)) && AvoidsLength(node, path)
    ensures Prune(Clone(SetAt(node, path, value)), path, isTop) == node <==> UndoableFrom(node, path, isTop)
  {
    var key := LastKey(path);
    if IsStray(node, key) {
      CloneDropsStray(node, key, value);
      DropAbsent(node, key);
    } else if Lengthens(node, key) {
      LengthenedIsNotRestored(node, path, value, isTop, key, value);
    } else {
      CloneKeepsPut(node, key, value);
      DropAfterPut(node, key, CloneValue(value));
      if Find(node.fields, key).None? {
        DropAbsent(node, key);
      }
    }
  }

  /** Setting then removing gives the document back exactly when one of the walked conditions holds. */
  lemma {:induction false} PruneUndoesSet(node: Node, path: seq<string>, value: Value, isTop: bool)
    requires IsParsed(Branch(node)) && AvoidsLength(node, path)
    ensures Prune(Clone(SetAt(node, path, value)), path, isTop) == node <==> IsLost(node, path) || UndoableFrom(node, path, isTop)
    decreases |path|
  {
    if |path| <= 1 {
      SetThenPruneHere(node, path, value, isTop);
    } else {
      var key, inner, child := path[0], path[1..], ChildNode(node, path[0]);
      if IsLost(node, path) {
        LostLeavesClone(node, path, value);
        UnreachedIsKept(node, path, isTop);
      } else if Lengthens(node, key) {
        LengthenedIsNotRestored(node, path, value, isTop, key, Branch(SetAt(child, inner, value)));
      } else {
        ParsedDescends(node, key);
        PruneUndoesSet(child, inner, value, false);
        SetThenPrune(node, path, value, isTop, Prune(Clone(SetAt(child, inner, value)), inner, false));
      }
    }
  }

  lemma UnreachedIsKept(node: Node, path: seq<string>, isTop: bool)
    requires !ReachesParent(node, path)
    ensures Prune(node, path, isTop) == node
  {
  }

  /** What a path reads beyond its first key, it reads from the child there. */
  lemma ReadsFromChild(node: Node, path: seq<string>, i: nat, child: Value)
    requires 0 < i <= |path| && Read(node, path[0]) == Some(child)
    ensures ValueAt(Branch(node), path[..i]) == ValueAt(child, path[1..][..i - 1])
  {
    assert path[..i][0] == path[0] && path[..i][1..] == path[1..][..i - 1];
  }

  lemma MeetsBelow(node: Node, path: seq<string>, i: nat, child: Node)
    requires 0 < i < |path| && Read(node, path[0]) == Some(Branch(child))
    ensures MeetsStray(node, path, i) <==> MeetsStray(child, path[1..], i - 1)
    ensures MeetsEnd(node, path, i) <==> MeetsEnd(child, path[1..], i - 1)
  {
    ReadsFromChild(node, path, i, Branch(child));
  }

  lemma MeetsHere(node: Node, path: seq<string>)
    requires path != []
    ensures MeetsStray(node, path, 0) <==> IsStray(node, path[0])
    ensures MeetsEnd(node, path, 0) <==> Lengthens(node, path[0])
  {
    assert path[..0] == [];
  }

  /** Beyond a member that is no container, or none, nothing is met. */
  lemma MeetsNothing(node: Node, path: seq<string>, i: nat)
    requires 0 < i < |path| && !(Read(node, path[0]).Some? && Read(node, path[0]).value.Branch?)
    ensures !MeetsStray(node, path, i) && !MeetsEnd(node, path, i)
  {
    if Read(node, path[0]).Some? {
      ReadsFromChild(node, path, i, Read(node, path[0]).value);
    } else {
      assert path[..i][0] == path[0];
    }
  }

  lemma {:induction false} LostIsMet(node: Node, path: seq<string>)
    requires AvoidsLength(node, path)
    ensures IsLost(node, path) <==> exists i :: 0 <= i < |path| - 1 && MeetsStray(node, path, i)
    decreases |path|
  {
    if |path| > 1 {
      MeetsHere(node, path);
      match Find(node.fields, path[0])
      case Some(Branch(child)) =>
        LostIsMet(child, path[1..]);
        if i :| 0 <= i < |path| - 2 && MeetsStray(child, path[1..], i) {
          MeetsBelow(node, path, i + 1, child);
        }
        if i :| 0 < i < |path| - 1 && MeetsStray(node, path, i) {
          MeetsBelow(node, path, i, child);
        }
      case _ =>
        if i :| 0 < i < |path| - 1 && MeetsStray(node, path, i) {
          MeetsNothing(node, path, i);
        }
    }
  }

  ghost predicate AllRestorable(node: Node, path: seq<string>, isTop: bool) {
    forall i :: 0 < i < |path| ==>
      IsRestorable(ValueAt(Branch(node), path[..i]), !(isTop && path[..i] == REQUIRED_OBJECT_PATH))
  }

  ghost predicate MeetsNoEnd(node: Node, path: seq<string>) {
    forall i :: 0 <= i < |path| ==> !MeetsEnd(node, path, i)
  }

  lemma {:induction false} UndoableIsWalked(node: Node, path: seq<string>, isTop: bool)
    requires path != [] && AvoidsLength(node, path)
    ensures UndoableFrom(node, path, isTop) <==>
              ValueAt(Branch(node), path).None? && AllRestorable(node, path, isTop) && MeetsNoEnd(node, path)
    decreases |path|
  {
    MeetsHere(node, path);
    if |path| > 1 {
      assert path[..1] == [path[0]];
      match Find(node.fields, path[0])
      case Some(Branch(child)) =>
        UndoableIsWalked(child, path[1..], false);
        UndoableBelow(node, path, isTop, child);
      case Some(Leaf(_)) =>
        assert ValueAt(Branch(node), path[..1]) == Find(node.fields, path[0]);
      case None =>
        assert forall i :: 0 < i <= |path| ==> ValueAt(Branch(node), path[..i]).None?;
        assert path[..|path|] == path;
        forall i | 0 < i < |path|
          ensures !MeetsEnd(node, path, i)
        {
          MeetsNothing(node, path, i);
        }
    }
  }

  lemma UndoableBelow(node: Node, path: seq<string>, isTop: bool, child: Node)
    requires |path| > 1 && AvoidsLength(node, path) && Find(node.fields, path[0]) == Some(Branch(child))
    ensures MeetsNoEnd(node, path) <==> MeetsNoEnd(child, path[1..])
    ensures AllRestorable(node, path, isTop) <==>
              IsRestorable(Some(Branch(child)), !(isTop && path[0] == "runtime")) && AllRestorable(child, path[1..], false)
    ensures ValueAt(Branch(node), path) == ValueAt(Branch(child), path[1..])
  {
    MeetsHere(node, path);
    RestorableBelow(node, path, isTop, child);
    forall i | 0 < i < |path|
      ensures MeetsEnd(node, path, i) <==> MeetsEnd(child, path[1..], i - 1)
    {
      MeetsBelow(node, path, i, child);
    }
    if !MeetsNoEnd(child, path[1..]) {
      var i :| 0 <= i < |path| - 1 && MeetsEnd(child, path[1..], i);
      assert MeetsEnd(node, path, i + 1);
    }
  }

  lemma RestorableBelow(node: Node, path: seq<string>, isTop: bool, child: Node)
    requires |path| > 1 && AvoidsLength(node, path) && Find(node.fields, path[0]) == Some(Branch(child))
    ensures AllRestorable(node, path, isTop) <==>
              IsRestorable(Some(Branch(child)), !(isTop && path[0] == "runtime")) && AllRestorable(child, path[1..], false)
  {
    var inner := path[1..];
    assert path[..1] == [path[0]] && ValueAt(Branch(node), path[..1]) == Some(Branch(child));
    forall i | 1 < i < |path|
      ensures ValueAt(Branch(node), path[..i]) == ValueAt(Branch(child), inner[..i - 1]) && path[..i] != REQUIRED_OBJECT_PATH
    {
      ReadsFromChild(node, path, i, Branch(child));
    }
    if AllRestorable(node, path, isTop) {
      forall i | 0 < i < |inner|
        ensures IsRestorable(ValueAt(Branch(child), inner[..i]), true)
      {
        assert ValueAt(Branch(node), path[..i + 1]) == ValueAt(Branch(child), inner[..i + 1 - 1]);
      }
    }
  }

  lemma UndoneWhenParsed(node: Node, path: seq<string>, value: Value)
    requires IsParsed(Branch(node)) && AvoidsLength(node, path)
    ensures IsUndoable(node, path) <==> Prune(Clone(SetAt(node, path, value)), path, true) == node
  {
    PruneUndoesSet(node, path, value, true);
    LostIsMet(node, path);
    if path != [] {
      UndoableIsWalked(node, path, true);
    } else {
      assert IndexOf("undefined").None?;
    }
  }

  /** Setting and then removing gives the document, as its text has it, back exactly under the condition a caller can check. */
  lemma RemoveUndoesSet(node: Node, path: seq<string>, value: Value)
    requires AvoidsLength(Clone(node), path)
    ensures IsUndoable(Clone(node), path) <==>
              WithoutConfigurationValue(WithConfigurationValue(node, path, value), path) == Clone(node)
  {
    CloneIsParsed(Branch(node));
    RemoveIsPrune(WithConfigurationValue(node, path, value), path);
    UndoneWhenParsed(Clone(node), path, value);
  }

  // --- What a set leaves in the document's text ---

  /** The path meets a name that is no index of an array, walked from the top. */
  predicate Strays(node: Node, path: seq<string>)
    decreases |path|
  {
    path != [] && (IsStray(node, path[0]) ||
      match Find(node.fields, path[0])
      case Some(Branch(child)) => Strays(child, path[1..])
      case _ => false)
  }

  lemma {:induction false} StraysIsMet(node: Node, path: seq<string>)
    requires AvoidsLength(node, path)
    ensures Strays(node, path) <==> exists i :: 0 <= i < |path| && MeetsStray(node, path, i)
    decreases |path|
  {
    if path != [] {
      MeetsHere(node, path);
      match Find(node.fields, path[0])
      case Some(Branch(child)) =>
        StraysIsMet(child, path[1..]);
        if i :| 0 <= i < |path| - 1 && MeetsStray(child, path[1..], i) {
          MeetsBelow(node, path, i + 1, child);
        }
        if i :| 0 < i < |path| && MeetsStray(node, path, i) {
          MeetsBelow(node, path, i, child);
        }
      case _ =>
        if i :| 0 < i < |path| && MeetsStray(node, path, i) {
          MeetsNothing(node, path, i);
        }
    }
  }

  lemma {:induction false} CloneOfStrayedSet(node: Node, path: seq<string>, value: Value)
    requires IsParsed(Branch(node)) && AvoidsLength(node, path) && path != []
    ensures if Strays(node, path) then Clone(SetAt(node, path, value)) == node
            else ValueAt(Branch(Clone(SetAt(node, path, value))), path) == Some(CloneValue(value))
    decreases |path|
  {
    var key, child := path[0], ChildNode(node, path[0]);
    if |path| == 1 {
      StrayedHere(node, path, value);
    } else if IsStray(node, key) {
      CloneDropsStray(node, key, Branch(SetAt(child, path[1..], value)));
    } else {
      ParsedDescends(node, key);
      CloneOfStrayedSet(child, path[1..], value);
      StrayedBelow(node, path, value, child);
    }
  }

  lemma StrayedHere(node: Node, path: seq<string>, value: Value)
    requires IsParsed(Branch(node)) && AvoidsLength(node, path) && |path| == 1
    ensures if Strays(node, path) then Clone(SetAt(node, path, value)) == node
            else ValueAt(Branch(Clone(SetAt(node, path, value))), path) == Some(CloneValue(value))
  {
    assert path[1..] == [] && LastKey(path) == path[0];
    if IsStray(node, path[0]) {
      CloneDropsStray(node, path[0], value);
    } else {
      CloneFindsPut(node, path[0], value);
      var clone := Clone(SetAt(node, path, value));
      assert Read(clone, path[0]) == Some(CloneValue(value));
      ReadsFromChild(clone, path, 1, CloneValue(value));
      assert path[..1] == path && path[1..][..0] == [];
      assert !Strays(node, path);
    }
  }

  lemma StraysInChild(node: Node, path: seq<string>)
    requires |path| > 1 && !IsStray(node, path[0])
    ensures Strays(node, path) <==> Strays(ChildNode(node, path[0]), path[1..])
    ensures Strays(node, path) ==> Find(node.fields, path[0]) == Some(Branch(ChildNode(node, path[0])))
  {
    match Find(node.fields, path[0])
    case Some(Branch(child)) =>
    case _ => assert !Strays(EMPTY_OBJECT, path[1..]);
  }

  lemma StrayedBelow(node: Node, path: seq<string>, value: Value, child: Node)
    requires IsParsed(Branch(node)) && AvoidsLength(node, path) && |path| > 1
    requires child == ChildNode(node, path[0]) && !IsStray(node, path[0])
    requires if Strays(child, path[1..]) then Clone(SetAt(child, path[1..], value)) == child
             else ValueAt(Branch(Clone(SetAt(child, path[1..], value))), path[1..]) == Some(CloneValue(value))
    ensures if Strays(node, path) then Clone(SetAt(node, path, value)) == node
            else ValueAt(Branch(Clone(SetAt(node, path, value))), path) == Some(CloneValue(value))
  {
    StraysInChild(node, path);
    if Strays(child, path[1..]) {
      CloneKeepsPut(node, path[0], Branch(SetAt(child, path[1..], value)));
      PutSame(node, path[0]);
    } else {
      ReadsBelow(node, path, value, child);
    }
  }

  lemma ReadsBelow(node: Node, path: seq<string>, value: Value, child: Node)
    requires IsParsed(Branch(node)) && AvoidsLength(node, path) && |path| > 1
    requires child == ChildNode(node, path[0]) && !IsStray(node, path[0])
    ensures ValueAt(Branch(Clone(SetAt(node, path, value))), path) ==
              ValueAt(Branch(Clone(SetAt(child, path[1..], value))), path[1..])
  {
    var written, clone := Branch(SetAt(child, path[1..], value)), Clone(SetAt(node, path, value));
    CloneFindsPut(node, path[0], written);
    ReadsFromChild(clone, path, |path|, CloneValue(written));
    assert path[..|path|] == path && path[1..][..|path| - 1] == path[1..];
  }

  /**
    * What a set puts under a name that is no index of an array is not in the
    * document's text, which is as it was; anything else is.
    */
  lemma SetReachesText(node: Node, path: seq<string>, value: Value)
    requires AvoidsLength(Clone(node), path) && path != []
    ensures if exists i :: 0 <= i < |path| && MeetsStray(Clone(node), path, i) then
              NodeToJson(WithConfigurationValue(node, path, value)) == NodeToJson(node)
            else ValueAt(Branch(Clone(WithConfigurationValue(node, path, value))), path) == Some(CloneValue(value))
  {
    CloneIsParsed(Branch(node));
    StraysIsMet(Clone(node), path);
    CloneOfStrayedSet(Clone(node), path, value);
    TextOfClone(node);
    TextOfClone(SetAt(Clone(node), path, value));
  }

  lemma TextOfClone(node: Node)
    ensures NodeToJson(Clone(node)) == NodeToJson(node)
  {
    NodeIsFromJson(node);
    ToJsonOfParsed(NodeToJson(node));
  }

  /** A member put on an array by name: it reads back, the text never has it, and removing it restores the document. */
  lemma NameOnArray(value: Value)
    ensures var item := Field("0", Leaf(JsonText.Null));
            var list := Node([Field("a", Branch(Node([item], Some(1))))], None);
            && Clone(list) == list && AvoidsLength(list, ["a", "b"])
            && IsUndoable(list, ["a", "b"])
            && WithoutConfigurationValue(WithConfigurationValue(list, ["a", "b"], value), ["a", "b"]) == list
            && NodeToJson(WithConfigurationValue(list, ["a", "b"], value)) == NodeToJson(list)
  {
    var item := Field("0", Leaf(JsonText.Null));
    var inner, path := Node([item], Some(1)), ["a", "b"];
    var list := Node([Field("a", Branch(inner))], None);
    OneItemIsParsed(item, inner);
    assert CloneFields(list.fields) == list.fields;
    NameIsStray(list, inner, path);
    SetReachesText(list, path, value);
    RemoveUndoesSet(list, path, value);
  }

  lemma NameIsStray(list: Node, inner: Node, path: seq<string>)
    requires list == Node([Field("a", Branch(inner))], None) && path == ["a", "b"]
    requires inner.fields != [] && inner.length.Some? && Find(inner.fields, "b").None?
    ensures AvoidsLength(list, path) && MeetsStray(list, path, 1) && IsUndoable(list, path)
  {
    assert IndexOf("b").None?;
    assert path[1..] == ["b"] && ["b"][1..] == [];
    assert Read(list, "a") == Some(Branch(inner)) && Read(inner, "b") == None;
    MeetsHere(list, path);
    ReadsFromChild(list, path, 1, Branch(inner));
    ReadsFromChild(list, path, 2, Branch(inner));
    assert path[..2] == path && ["b"][..0] == [] && ["b"][..1] == ["b"];
    assert ValueAt(Branch(inner), ["b"]) == None;
    assert MeetsStray(list, path, 1) && !MeetsEnd(list, path, 0) && !MeetsEnd(list, path, 1);
  }

  lemma OneItemIsParsed(item: Field, node: Node)
    requires item == Field("0", Leaf(JsonText.Null)) && node == Node([item], Some(1))
    ensures Clone(node) == node
  {
    assert Digits(0) == "0";
    assert CloneItem([item], "0") == item.value;
  }

  // --- Removing what is not there ---

  lemma {:induction false} ValueIsParentMember(node: Node, path: seq<string>)
    requires path != [] && ReachesParent(node, path)
    ensures ValueAt(Branch(node), path) == Read(ParentNode(node, path).value, LastKey(path))
    decreases |path|
  {
    if |path| > 1 {
      ValueIsParentMember(Read(node, path[0]).value.node, path[1..]);
    }
  }

  lemma DropChangesNothing(node: Node, key: string)
    requires node.length.Some? ==> Find(node.fields, "length").None?
    ensures Drop(node, key) == node <==> Find(node.fields, key).None?
  {
    if Find(node.fields, key).None? {
      DropAbsent(node, key);
    }
  }

  lemma {:induction false} DeleteChangesNothing(node: Node, path: seq<string>)
    requires IsParsed(Branch(node)) && ReachesParent(node, path)
    ensures DeleteAt(node, path) == node <==> Find(ParentNode(node, path).value.fields, LastKey(path)).None?
    decreases |path|
  {
    if |path| > 1 {
      var child := Read(node, path[0]).value.node;
      ParsedChildNode(node, path[0], child);
      DeleteChangesNothing(child, path[1..]);
      PutSame(node, path[0]);
    } else {
      if node.length.Some? {
        ParsedArrayHolds(node, "length");
        assert IndexOf("length").None?;
      }
      DropChangesNothing(node, LastKey(path));
    }
  }

  /** The way to a parent asks no array for its length. */
  lemma {:induction false} ReachedAvoidsLength(node: Node, path: seq<string>)
    requires ReachesParent(node, path) && path != []
    ensures AvoidsLength(node, ParentPath(path))
    ensures !IsLengthKey(ParentNode(node, path).value, LastKey(path)) ==> AvoidsLength(node, path)
    decreases |path|
  {
    if |path| > 1 {
      assert ParentPath(path)[0] == path[0] && ParentPath(path)[1..] == ParentPath(path[1..]);
      ReachedAvoidsLength(Read(node, path[0]).value.node, path[1..]);
    }
  }

  lemma {:induction false} ParsedParent(node: Node, path: seq<string>)
    requires IsParsed(Branch(node)) && ReachesParent(node, path)
    ensures IsParsed(Branch(ParentNode(node, path).value))
    decreases |path|
  {
    if |path| > 1 {
      ParsedChildNode(node, path[0], Read(node, path[0]).value.node);
      ParsedParent(Read(node, path[0]).value.node, path[1..]);
    }
  }

  lemma ParsedHasNoLength(node: Node)
    requires IsParsed(Branch(node)) && node.length.Some?
    ensures Find(node.fields, "length").None?
  {
    ParsedArrayHolds(node, "length");
    assert IndexOf("length").None?;
  }

  lemma RemovalOfPresent(node: Node, path: seq<string>, parent: Node)
    requires IsParsed(Branch(node)) && ParentNode(node, path) == Some(parent) && Find(parent.fields, LastKey(path)).Some?
    ensures WithoutConfigurationValue(node, path) != node
  {
    assert Clone(node) == node;
    DeleteChangesNothing(node, path);
    if path != [] {
      ParsedParent(node, path);
      if parent.length.Some? {
        ParsedHasNoLength(parent);
      }
      ReachedAvoidsLength(node, path);
      AvoidingReadsNoLength(node, path);
      RemoveMakesAbsent(node, path);
      ValueIsParentMember(node, path);
    }
  }

  lemma RemovalOfAbsent(node: Node, path: seq<string>, parent: Node)
    requires IsParsed(Branch(node)) && ParentNode(node, path) == Some(parent) && Find(parent.fields, LastKey(path)).None?
    ensures WithoutConfigurationValue(node, path) == node <==> !(parent.fields == [] && MayBePruned(ParentPath(path)))
  {
    var parentPath := ParentPath(path);
    assert Clone(node) == node;
    ParentNodeIsValue(node, path);
    DeleteChangesNothing(node, path);
    DropAbsent(parent, LastKey(path));
    if parent.fields == [] && MayBePruned(parentPath) {
      ReachedAvoidsLength(node, path);
      AvoidingReadsNoLength(node, parentPath);
      RemoveMakesAbsent(node, parentPath);
    }
  }

  lemma NothingRemoved(node: Node, path: seq<string>)
    requires IsParsed(Branch(node))
    ensures WithoutConfigurationValue(node, path) == node <==>
              match ParentNode(node, path)
              case None => true
              case Some(parent) =>
                Find(parent.fields, LastKey(path)).None? && (parent.fields == [] ==> !MayBePruned(ParentPath(path)))
  {
    assert Clone(node) == node;
    match ParentNode(node, path)
    case None => ParentNodeIsValue(node, path);
    case Some(parent) =>
      if Find(parent.fields, LastKey(path)).Some? {
        RemovalOfPresent(node, path, parent);
      } else {
        RemovalOfAbsent(node, path, parent);
      }
  }

  /** Removing a setting that is not there gives the document as its text has it, unless its parent is an empty container pruning takes. */
  lemma RemoveChangesNothing(node: Node, path: seq<string>)
    ensures WithoutConfigurationValue(node, path) == Clone(node) <==>
              match ParentNode(Clone(node), path)
              case None => true
              case Some(parent) =>
                Find(parent.fields, LastKey(path)).None? && (parent.fields == [] ==> !MayBePruned(ParentPath(path)))
  {
    CloneIsParsed(Branch(node));
    RemoveIsPrune(node, path);
    RemoveIsPrune(Clone(node), path);
    NothingRemoved(Clone(node), path);
  }

  /** A removal leaves no empty container behind on the way, apart from `runtime`. */
  lemma RemoveLeavesNoEmptyParent(node: Node, path: seq<string>, i: nat)
    requires ReachesParent(Clone(node), path) && 0 < i < |path|
    ensures match ValueAt(Branch(WithoutConfigurationValue(node, path)), path[..i])
            case Some(Branch(left)) => left.fields != [] || path[..i] == ["runtime"]
            case _ => true
  {
    RemoveIsPrune(node, path);
    PruneLeavesNoEmptyParent(Clone(node), path, true, i);
  }

  lemma {:induction false} PruneLeavesNoEmptyParent(node: Node, path: seq<string>, isTop: bool, i: nat)
    requires ReachesParent(node, path) && 0 < i < |path|
    ensures match ValueAt(Branch(Prune(node, path, isTop)), path[..i])
            case Some(Branch(left)) => left.fields != [] || (isTop && path[..i] == REQUIRED_OBJECT_PATH)
            case _ => true
    decreases |path|
  {
    var child, inner := Read(node, path[0]).value.node, path[1..];
    var pruned := Prune(child, inner, false);
    PruneUnfolds(node, path, isTop, child);
    assert path[..1] == [path[0]];
    var updated := Prune(node, path, isTop);
    if pruned.fields == [] && !(isTop && path[0] == "runtime") {
      assert path[..i][0] == path[0];
    } else {
      assert Read(updated, path[0]) == Some(Branch(pruned));
      ReadsFromChild(updated, path, i, Branch(pruned));
      if i > 1 {
        PruneLeavesNoEmptyParent(child, inner, false, i - 1);
      } else {
        assert inner[..0] == [];
      }
    }
  }

  /** The `runtime` object outlives every removal inside it, even when that empties it. */
  lemma RuntimeStays(node: Node, path: seq<string>)
    requires |path| > 1 && path[0] == "runtime"
    requires ValueAt(Branch(Clone(node)), ["runtime"]).Some? && ValueAt(Branch(Clone(node)), ["runtime"]).value.Branch?
    ensures var left := ValueAt(Branch(WithoutConfigurationValue(node, path)), ["runtime"]);
            left.Some? && left.value.Branch?
  {
    var before := Clone(node);
    RemoveIsPrune(node, path);
    assert ["runtime"][1..] == [];
    assert ValueAt(Branch(before), ["runtime"]) == Read(before, "runtime");
    var child := Read(before, "runtime").value.node;
    var after := Prune(before, path, true);
    if ReachesParent(child, path[1..]) {
      PruneUnfolds(before, path, true, child);
      assert Read(after, "runtime").Some? && Read(after, "runtime").value.Branch?;
    }
    assert ValueAt(Branch(after), ["runtime"]) == Read(after, "runtime");
  }

  // --- No key twice ---

  lemma ProperTail(fields: seq<Field>)
    requires fields != [] && HasDistinctKeys(fields)
    ensures HasDistinctKeys(fields[1..]) && Find(fields[1..], fields[0].key).None?
  {
    var tail := fields[1..];
    assert forall i :: 0 <= i < |tail| ==> tail[i] == fields[i + 1] && tail[i].key != fields[0].key;
  }

  lemma {:induction false} SetKeyKeepsDistinct(fields: seq<Field>, key: string, value: Value)
    requires HasDistinctKeys(fields)
    ensures HasDistinctKeys(SetKey(fields, key, value))
  {
    if fields != [] {
      ProperTail(fields);
      if fields[0].key != key {
        SetKeyKeepsDistinct(fields[1..], key, value);
        var rest := SetKey(fields[1..], key, value);
        forall j | 0 <= j < |rest|
          ensures rest[j].key != fields[0].key
        {
          assert Find(rest, rest[j].key).Some?;
        }
      }
    }
  }

  lemma {:induction false} DeleteKeyKeepsDistinct(fields: seq<Field>, key: string)
    requires HasDistinctKeys(fields)
    ensures HasDistinctKeys(DeleteKey(fields, key))
  {
    if fields != [] {
      ProperTail(fields);
      DeleteKeyKeepsDistinct(fields[1..], key);
      var rest := DeleteKey(fields[1..], key);
      forall j | 0 <= j < |rest|
        ensures rest[j].key != fields[0].key
      {
        assert Find(rest, rest[j].key).Some?;
      }
    }
  }

  lemma PutKeepsProper(node: Node, key: string, value: Value)
    requires IsProper(Branch(node)) && IsProper(value) && !IsLengthKey(node, key)
    ensures IsProper(Branch(Put(node, key, value)))
  {
    var put := Put(node, key, value);
    SetKeyKeepsDistinct(node.fields, key, value);
    forall i | 0 <= i < |put.fields|
      ensures IsProper(put.fields[i].value) && IsWithin(put.length, put.fields[i].key)
    {
      DistinctIsFound(put.fields, i);
      FoundIsProper(node, put.fields[i].key);
    }
  }

  lemma DropKeepsProper(node: Node, key: string)
    requires IsProper(Branch(node))
    ensures IsProper(Branch(Drop(node, key)))
  {
    var dropped := Drop(node, key);
    DeleteKeyKeepsDistinct(node.fields, key);
    forall i | 0 <= i < |dropped.fields|
      ensures IsProper(dropped.fields[i].value) && IsWithin(dropped.length, dropped.fields[i].key)
    {
      DistinctIsFound(dropped.fields, i);
      FoundIsProper(node, dropped.fields[i].key);
    }
  }

  lemma FoundIsProper(node: Node, key: string)
    requires IsProper(Branch(node))
    ensures Find(node.fields, key).Some? ==> IsProper(Find(node.fields, key).value) && IsWithin(node.length, key)
  {
    if Find(node.fields, key).Some? {
      var i :| 0 <= i < |node.fields| && node.fields[i] == Field(key, Find(node.fields, key).value);
    }
  }

  /** Set and remove keep a document a document: no container gains a key twice, and no array an element behind its end. */
  lemma SetKeepsDocument(node: Node, path: seq<string>, value: Value)
    requires AvoidsLength(Clone(node), path) && IsProper(Branch(node)) && IsProper(value)
    ensures IsProper(Branch(WithConfigurationValue(node, path, value)))
  {
    CloneIsProper(Branch(node));
    SetAtKeepsProper(Clone(node), path, value);
  }

  lemma {:induction false} SetAtKeepsProper(node: Node, path: seq<string>, value: Value)
    requires AvoidsLength(node, path) && IsProper(Branch(node)) && IsProper(value)
    ensures IsProper(Branch(SetAt(node, path, value)))
    decreases |path|
  {
    if |path| <= 1 {
      PutKeepsProper(node, LastKey(path), value);
    } else {
      var child := ChildNode(node, path[0]);
      FoundIsProper(node, path[0]);
      SetAtKeepsProper(child, path[1..], value);
      PutKeepsProper(node, path[0], Branch(SetAt(child, path[1..], value)));
    }
  }

  lemma RemoveKeepsDocument(node: Node, path: seq<string>)
    requires IsProper(Branch(node))
    ensures IsProper(Branch(WithoutConfigurationValue(node, path)))
  {
    CloneIsProper(Branch(node));
    RemoveIsPrune(node, path);
    PruneKeepsProper(Clone(node), path, true);
  }

  lemma {:induction false} PruneKeepsProper(node: Node, path: seq<string>, isTop: bool)
    requires IsProper(Branch(node))
    ensures IsProper(Branch(Prune(node, path, isTop)))
    decreases |path|
  {
    if |path| <= 1 {
      DropKeepsProper(node, LastKey(path));
    } else if ReachesParent(node, path) {
      var child := Read(node, path[0]).value.node;
      FoundIsProper(node, path[0]);
      PruneKeepsProper(child, path[1..], false);
      DropKeepsProper(node, path[0]);
      PutKeepsProper(node, path[0], Branch(Prune(child, path[1..], false)));
    }
  }
}
