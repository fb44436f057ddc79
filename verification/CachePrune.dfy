// The cache retention policy (xtask/src/cache_prune.rs): oversize entries go,
// then each family keeps its newest entries up to a quota, counted apart on the
// default branch and on every other ref.

module CachePrune {
  import opened Wrappers
  import opened Sorting
  import opened TextOrder
  import opened TextSearch

  const CACHE_KEY_PREFIX := "astronomical-v2-"
  const NATIVE_BUILD_KEEP_COUNT: nat := 2
  const DEFAULT_KEEP_COUNT: nat := 1
  const SCCACHE_MAX_ENTRY_BYTES: nat := 680_000_000
  const DEFAULT_MAX_ENTRY_BYTES: nat := 0
  const SCCACHE_OTHER_REF_KEEP_COUNT: nat := 0
  const DEFAULT_OTHER_REF_KEEP_COUNT: nat := 1

  datatype CacheEntry = CacheEntry(id: nat, key: string, refName: string, createdAt: string, sizeBytes: nat)

  datatype DeletionReason = Oversize | Surplus

  datatype Deletion = Deletion(id: nat, reason: DeletionReason, sizeBytes: nat)

  // --- Families and their limits ---

  function StrippedKey(cacheKey: string): string {
    if StartsWith(cacheKey, CACHE_KEY_PREFIX) then cacheKey[|CACHE_KEY_PREFIX|..] else cacheKey
  }

  function FamilyOfKey(cacheKey: string): string {
    var stripped := StrippedKey(cacheKey);
    match FindFirst(stripped, "-macOS")
    case Some(at) => stripped[..at]
    case None => SplitOn(stripped, "-")[0]
  }

  /** What stands before the first `-macOS`, or, without one, before the first dash or the end. */
  ghost predicate IsFamilyPart(stripped: string, family: string) {
    if Contains(stripped, "-macOS") then
      OccursAt(stripped, "-macOS", |family|) && family <= stripped && forall at: nat :: at < |family| ==> !OccursAt(stripped, "-macOS", at)
    else family <= stripped && '-' !in family && (family == stripped || stripped[|family|] == '-')
  }

  /** The family of any key: there is exactly one such part. */
  lemma FamilyOfAnyKey(cacheKey: string, family: string)
    ensures IsFamilyPart(StrippedKey(cacheKey), family) <==> family == FamilyOfKey(cacheKey)
  {
    var stripped := StrippedKey(cacheKey);
    FindFirstFacts(stripped, "-macOS");
    if FindFirst(stripped, "-macOS").None? {
      FirstToken(stripped);
      assert IsFamilyPart(stripped, family) ==> forall i :: 0 <= i < |family| ==> stripped[i] == family[i];
    }
  }

  lemma FirstToken(text: string)
    ensures var token := SplitOn(text, "-")[0];
            token <= text && '-' !in token && (token == text || text[|token|] == '-')
  {
    FindFirstFacts(text, "-");
    var end := if FindFirst(text, "-").Some? then FindFirst(text, "-").value else |text|;
    forall i | 0 <= i < end
      ensures text[i] != '-'
    {
      assert !OccursAt(text, "-", i);
      assert text[i..i + 1] == [text[i]];
    }
  }

  /** A key from a macOS runner names what stands between the prefix and the platform. */
  lemma FamilyIsBetween(family: string, rest: string)
    requires !Contains(family, "-macOS")
    ensures FamilyOfKey(CACHE_KEY_PREFIX + family + "-macOS" + rest) == family
  {
    var key, stripped := CACHE_KEY_PREFIX + family + "-macOS" + rest, family + "-macOS" + rest;
    assert key[..|CACHE_KEY_PREFIX|] == CACHE_KEY_PREFIX && key[|CACHE_KEY_PREFIX|..] == stripped;
    assert stripped[|family|..|family| + 6] == "-macOS";
    assert OccursAt(stripped, "-macOS", |family|);
    FindFirstFacts(stripped, "-macOS");
    var at := FindFirst(stripped, "-macOS").value;
    if at < |family| {
      NoEarlierPlatform(family, rest, at);
    }
    assert stripped[..|family|] == family;
  }

  /** The platform cannot start inside the family and end behind it: it holds one dash, at its start. */
  lemma NoEarlierPlatform(family: string, rest: string, at: nat)
    requires !Contains(family, "-macOS") && at < |family|
    ensures !OccursAt(family + "-macOS" + rest, "-macOS", at)
  {
    var stripped := family + "-macOS" + rest;
    var platform := "-macOS";
    assert forall k :: 0 < k < 6 ==> platform[k] != '-';
    if at + 6 <= |family| {
      assert !OccursAt(family, platform, at) && family[at..at + 6] == stripped[at..at + 6];
    } else if at + 6 <= |stripped| {
      assert stripped[at..at + 6][|family| - at] == stripped[|family|] == '-';
    }
  }

  function KeepCountForFamily(family: string): nat {
    if family == "native-build" then NATIVE_BUILD_KEEP_COUNT else DEFAULT_KEEP_COUNT
  }

  function MaxEntryBytesForFamily(family: string): nat {
    if family == "sccache" then SCCACHE_MAX_ENTRY_BYTES else DEFAULT_MAX_ENTRY_BYTES
  }

  function OtherRefKeepCountForFamily(family: string): nat {
    if family == "sccache" then SCCACHE_OTHER_REF_KEEP_COUNT else DEFAULT_OTHER_REF_KEEP_COUNT
  }

  /** What the plan depends on besides the entries: how keys name families, and the default branch. */
  datatype Policy = Policy(familyOf: string -> string, defaultBranchRef: string)

  /** The source's policy; the results below hold whatever way keys name families. */
  function PolicyFor(defaultBranchRef: string): Policy {
    Policy(FamilyOfKey, defaultBranchRef)
  }

  function Family(entry: CacheEntry, policy: Policy): string {
    policy.familyOf(entry.key)
  }

  predicate IsOversize(entry: CacheEntry, policy: Policy) {
    var ceiling := MaxEntryBytesForFamily(Family(entry, policy));
    ceiling > 0 && entry.sizeBytes > ceiling
  }

  /** The entries that share one quota. */
  datatype Shelf = Shelf(family: string, isDefaultBranch: bool)

  function ShelfOf(entry: CacheEntry, policy: Policy): Shelf {
    Shelf(Family(entry, policy), entry.refName == policy.defaultBranchRef)
  }

  function Quota(shelf: Shelf): nat {
    if shelf.isDefaultBranch then KeepCountForFamily(shelf.family) else OtherRefKeepCountForFamily(shelf.family)
  }

  /** An entry that competes for a place on the shelf. */
  predicate Competes(entry: CacheEntry, policy: Policy, shelf: Shelf) {
    !IsOversize(entry, policy) && ShelfOf(entry, policy) == shelf
  }

  // --- Sorting newest first ---

  predicate IsNotOlder(a: CacheEntry, b: CacheEntry) {
    !Before(a.createdAt, b.createdAt)
  }

  lemma AgeOrder()
    ensures IsOrder(IsNotOlder)
  {
    forall a, b
      ensures IsNotOlder(a, b) || IsNotOlder(b, a)
    {
      BeforeTrichotomy(a.createdAt, b.createdAt);
    }
    forall a, b, c | IsNotOlder(a, b) && IsNotOlder(b, c)
      ensures IsNotOlder(a, c)
    {
      NotBeforeTransitive(a.createdAt, b.createdAt, c.createdAt);
    }
  }

  lemma NotBeforeTransitive(a: string, b: string, c: string)
    requires !Before(a, b) && !Before(b, c)
    ensures !Before(a, c)
  {
    BeforeTrichotomy(a, b);
    BeforeTrichotomy(b, c);
    BeforeTrichotomy(a, c);
    if Before(c, b) && Before(b, a) {
      BeforeTransitive(c, b, a);
    }
  }

  /** The stable `sort_by` on creation time, newest first. */
  function NewestFirst(entries: seq<CacheEntry>): seq<CacheEntry> {
    Sort(entries, IsNotOlder)
  }

  lemma NewestFirstSorts(entries: seq<CacheEntry>)
    ensures IsSorted(NewestFirst(entries), IsNotOlder)
  {
    AgeOrder();
    SortSorts(entries, IsNotOlder);
  }

  /** Entries created at the same moment keep their listing order, so which of them is kept is settled. */
  lemma NewestFirstIsStable(entries: seq<CacheEntry>, moment: string)
    ensures var isOfMoment := (entry: CacheEntry) => entry.createdAt == moment;
            Selected(NewestFirst(entries), isOfMoment) == Selected(entries, isOfMoment)
  {
    var isOfMoment := (entry: CacheEntry) => entry.createdAt == moment;
    forall a, b | isOfMoment(a) && isOfMoment(b)
      ensures IsNotOlder(a, b)
    {
      BeforeTrichotomy(moment, moment);
    }
    SortIsStable(entries, isOfMoment, IsNotOlder);
  }

  // --- The plan ---

  function FamilyEntries(entries: seq<CacheEntry>, family: string, policy: Policy): seq<CacheEntry> {
    if entries == [] then []
    else (if Family(entries[0], policy) == family then [entries[0]] else []) + FamilyEntries(entries[1..], family, policy)
  }

  /** How many of the first `count` entries compete for the shelf. */
  function CompetitorsAmong(sorted: seq<CacheEntry>, count: nat, policy: Policy, shelf: Shelf): (n: nat)
    requires count <= |sorted|
    ensures n <= count
  {
    if count == 0 then 0
    else CompetitorsAmong(sorted, count - 1, policy, shelf)
         + (if Competes(sorted[count - 1], policy, shelf) then 1 else 0)
  }

  /** Why the entry at `at` of a newest-first listing goes, if it does: its size, or its rank on its shelf. */
  function ReasonAt(sorted: seq<CacheEntry>, at: nat, policy: Policy): Option<DeletionReason>
    requires at < |sorted|
  {
    var shelf := ShelfOf(sorted[at], policy);
    if IsOversize(sorted[at], policy) then Some(Oversize)
    else if CompetitorsAmong(sorted, at, policy, shelf) < Quota(shelf) then None
    else Some(Surplus)
  }

  function DeletionsAmong(sorted: seq<CacheEntry>, count: nat, policy: Policy): seq<Deletion>
    requires count <= |sorted|
  {
    if count == 0 then []
    else
      DeletionsAmong(sorted, count - 1, policy) +
      match ReasonAt(sorted, count - 1, policy)
      case None => []
      case Some(reason) => [Deletion(sorted[count - 1].id, reason, sorted[count - 1].sizeBytes)]
  }

  /** One family's entries, newest first. */
  function SortedFamily(entries: seq<CacheEntry>, family: string, policy: Policy): seq<CacheEntry> {
    NewestFirst(FamilyEntries(entries, family, policy))
  }

  function FamilyPlan(entries: seq<CacheEntry>, family: string, policy: Policy): seq<Deletion> {
    var sorted := SortedFamily(entries, family, policy);
    DeletionsAmong(sorted, |sorted|, policy)
  }

  function FamilyNames(entries: seq<CacheEntry>, policy: Policy): seq<string> {
    Ascending(set entry | entry in entries :: Family(entry, policy))
  }

  function FamilyPlans(entries: seq<CacheEntry>, families: seq<string>, policy: Policy): (plans: seq<seq<Deletion>>)
    ensures |plans| == |families|
    ensures forall i :: 0 <= i < |families| ==> plans[i] == FamilyPlan(entries, families[i], policy)
  {
    seq(|families|, i requires 0 <= i < |families| => FamilyPlan(entries, families[i], policy))
  }

  /** The first `count` lists, one after another. */
  function Joined(plans: seq<seq<Deletion>>, count: nat): seq<Deletion>
    requires count <= |plans|
  {
    if count == 0 then [] else Joined(plans, count - 1) + plans[count - 1]
  }

  function Plan(entries: seq<CacheEntry>, policy: Policy): seq<Deletion> {
    var plans := FamilyPlans(entries, FamilyNames(entries, policy), policy);
    Joined(plans, |plans|)
  }

  /** One entry of a newest-first listing, decided by the two counters. */
  lemma DecisionByCounters(sorted: seq<CacheEntry>, at: nat, family: string, policy: Policy)
    requires at < |sorted| && Family(sorted[at], policy) == family
    ensures var entry := sorted[at];
            var kept := CompetitorsAmong(sorted, at, policy, Shelf(family, entry.refName == policy.defaultBranchRef));
            ReasonAt(sorted, at, policy) ==
              if MaxEntryBytesForFamily(family) > 0 && entry.sizeBytes > MaxEntryBytesForFamily(family) then Some(Oversize)
              else if kept + 1 <= (if entry.refName == policy.defaultBranchRef then KeepCountForFamily(family)
                                   else OtherRefKeepCountForFamily(family)) then None
              else Some(Surplus)
    ensures forall isDefault :: CompetitorsAmong(sorted, at + 1, policy, Shelf(family, isDefault)) ==
              CompetitorsAmong(sorted, at, policy, Shelf(family, isDefault))
              + (if !IsOversize(sorted[at], policy) && (sorted[at].refName == policy.defaultBranchRef) == isDefault then 1 else 0)
  {
  }

  lemma PlanNext(sorted: seq<CacheEntry>, at: nat, policy: Policy)
    requires at < |sorted|
    ensures DeletionsAmong(sorted, at + 1, policy) == DeletionsAmong(sorted, at, policy) +
              var reason := ReasonAt(sorted, at, policy);
              if reason.None? then [] else [Deletion(sorted[at].id, reason.value, sorted[at].sizeBytes)]
  {
  }

  /** The inner loop with its two counters. */
  method PlanSorted(familyEntries: seq<CacheEntry>, family: string, policy: Policy) returns (deletions: seq<Deletion>)
    requires forall i :: 0 <= i < |familyEntries| ==> Family(familyEntries[i], policy) == family
    ensures deletions == DeletionsAmong(familyEntries, |familyEntries|, policy)
  {
    deletions := [];
    var keptOnDefaultBranch, keptOnOtherRefs := 0, 0;
    var i := 0;
    while i < |familyEntries|
      invariant 0 <= i <= |familyEntries|
      invariant deletions == DeletionsAmong(familyEntries, i, policy)
      invariant keptOnDefaultBranch == CompetitorsAmong(familyEntries, i, policy, Shelf(family, true))
      invariant keptOnOtherRefs == CompetitorsAmong(familyEntries, i, policy, Shelf(family, false))
    {
      var entry := familyEntries[i];
      DecisionByCounters(familyEntries, i, family, policy);
      PlanNext(familyEntries, i, policy);
      i := i + 1;
      var sizeCeiling := MaxEntryBytesForFamily(family);
      if sizeCeiling > 0 && entry.sizeBytes > sizeCeiling {
        deletions := deletions + [Deletion(entry.id, Oversize, entry.sizeBytes)];
        continue;
      }
      if entry.refName == policy.defaultBranchRef {
        keptOnDefaultBranch := keptOnDefaultBranch + 1;
        if keptOnDefaultBranch <= KeepCountForFamily(family) {
          continue;
        }
      } else {
        keptOnOtherRefs := keptOnOtherRefs + 1;
        if keptOnOtherRefs <= OtherRefKeepCountForFamily(family) {
          continue;
        }
      }
      deletions := deletions + [Deletion(entry.id, Surplus, entry.sizeBytes)];
    }
  }

  method PlanFamily(entries: seq<CacheEntry>, family: string, policy: Policy) returns (deletions: seq<Deletion>)
    ensures deletions == FamilyPlan(entries, family, policy)
  {
    var familyEntries := SortedFamily(entries, family, policy);
    SortedShareFamily(entries, family, familyEntries, policy);
    deletions := PlanSorted(familyEntries, family, policy);
  }

  /** The outer loop's body: one family's deletions come after those of the families before it. */
  method PlanOneMore(entries: seq<CacheEntry>, families: seq<string>, policy: Policy, i: nat, earlier: seq<Deletion>,
                     ghost plans: seq<seq<Deletion>>)
      returns (deletions: seq<Deletion>)
    requires i < |families| && plans == FamilyPlans(entries, families, policy) && earlier == Joined(plans, i)
    ensures deletions == Joined(plans, i + 1)
  {
    var familyDeletions := PlanFamily(entries, families[i], policy);
    deletions := earlier + familyDeletions;
  }

  /** The outer loop over the families. */
  method PlanFamilies(entries: seq<CacheEntry>, families: seq<string>, policy: Policy) returns (deletions: seq<Deletion>)
    ensures deletions == Joined(FamilyPlans(entries, families, policy), |families|)
  {
    ghost var plans := FamilyPlans(entries, families, policy);
    deletions := [];
    var i := 0;
    while i < |families|
      invariant 0 <= i <= |families| == |plans|
      invariant deletions == Joined(plans, i)
    {
      deletions := PlanOneMore(entries, families, policy, i, deletions, plans);
      i := i + 1;
    }
  }

  method DeletionPlan(entries: seq<CacheEntry>, defaultBranchRef: string) returns (deletions: seq<Deletion>)
    ensures deletions == Plan(entries, PolicyFor(defaultBranchRef))
  {
    var policy := PolicyFor(defaultBranchRef);
    deletions := PlanFamilies(entries, FamilyNames(entries, policy), policy);
  }

  lemma SortedShareFamily(entries: seq<CacheEntry>, family: string, sorted: seq<CacheEntry>, policy: Policy)
    requires sorted == SortedFamily(entries, family, policy)
    ensures forall i :: 0 <= i < |sorted| ==> Family(sorted[i], policy) == family && sorted[i] in entries
  {
    FamilyEntriesShareFamily(entries, family, policy);
    SortKeepsMembers(FamilyEntries(entries, family, policy), IsNotOlder);
    assert forall i :: 0 <= i < |sorted| ==> sorted[i] in sorted;
  }

  lemma {:induction false} FamilyEntriesShareFamily(entries: seq<CacheEntry>, family: string, policy: Policy)
    ensures forall entry :: entry in FamilyEntries(entries, family, policy) <==> entry in entries && Family(entry, policy) == family
  {
    if entries != [] {
      FamilyEntriesShareFamily(entries[1..], family, policy);
      assert entries == [entries[0]] + entries[1..];
    }
  }

  // --- What the plan decides about each entry ---

  ghost predicate HaveDistinctIds(entries: seq<CacheEntry>) {
    forall i, j :: 0 <= i < j < |entries| ==> entries[i].id != entries[j].id
  }

  lemma SameIdSameEntry(entries: seq<CacheEntry>, a: CacheEntry, b: CacheEntry)
    requires HaveDistinctIds(entries) && a in entries && b in entries && a.id == b.id
    ensures a == b
  {
    var i :| 0 <= i < |entries| && entries[i] == a;
    var j :| 0 <= j < |entries| && entries[j] == b;
  }

  lemma {:induction false} InsertKeepsIds(entry: CacheEntry, entries: seq<CacheEntry>)
    requires HaveDistinctIds(entries) && forall other :: other in entries ==> other.id != entry.id
    ensures HaveDistinctIds(Insert(entry, entries, IsNotOlder))
  {
    if entries != [] && Before(entry.createdAt, entries[0].createdAt) {
      InsertKeepsIds(entry, entries[1..]);
      var rest := Insert(entry, entries[1..], IsNotOlder);
      InsertKeepsMembers(entry, entries[1..], IsNotOlder);
      forall i | 0 <= i < |rest|
        ensures rest[i].id != entries[0].id
      {
        assert rest[i] in rest;
      }
    }
  }

  lemma {:induction false} SortKeepsIds(entries: seq<CacheEntry>)
    requires HaveDistinctIds(entries)
    ensures HaveDistinctIds(NewestFirst(entries))
  {
    if entries != [] {
      var sorted := NewestFirst(entries[1..]);
      SortKeepsIds(entries[1..]);
      SortKeepsMembers(entries[1..], IsNotOlder);
      InsertKeepsIds(entries[0], sorted);
    }
  }

  lemma {:induction false} FamilyKeepsIds(entries: seq<CacheEntry>, family: string, policy: Policy)
    requires HaveDistinctIds(entries)
    ensures HaveDistinctIds(FamilyEntries(entries, family, policy))
  {
    if entries != [] {
      FamilyKeepsIds(entries[1..], family, policy);
      FamilyEntriesShareFamily(entries[1..], family, policy);
      var rest := FamilyEntries(entries[1..], family, policy);
      forall i | 0 <= i < |rest|
        ensures rest[i].id != entries[0].id
      {
        assert rest[i] in entries[1..];
      }
    }
  }

  lemma SortedFamilyFacts(entries: seq<CacheEntry>, family: string, sorted: seq<CacheEntry>, policy: Policy)
    requires sorted == SortedFamily(entries, family, policy)
    ensures forall entry :: entry in sorted <==> entry in entries && Family(entry, policy) == family
    ensures IsSorted(sorted, IsNotOlder)
    ensures HaveDistinctIds(entries) ==> HaveDistinctIds(sorted)
  {
    FamilyEntriesShareFamily(entries, family, policy);
    NewestFirstSorts(FamilyEntries(entries, family, policy));
    SortKeepsMembers(FamilyEntries(entries, family, policy), IsNotOlder);
    if HaveDistinctIds(entries) {
      FamilyKeepsIds(entries, family, policy);
      SortKeepsIds(FamilyEntries(entries, family, policy));
    }
  }

  ghost predicate IsPlannedAt(sorted: seq<CacheEntry>, at: nat, policy: Policy, deletion: Deletion)
    requires at < |sorted|
  {
    && deletion.id == sorted[at].id && deletion.sizeBytes == sorted[at].sizeBytes
    && ReasonAt(sorted, at, policy) == Some(deletion.reason)
  }

  lemma {:induction false} DeletionsArePlanned(sorted: seq<CacheEntry>, count: nat, policy: Policy, deletion: Deletion)
    requires count <= |sorted|
    ensures deletion in DeletionsAmong(sorted, count, policy) <==>
              exists at :: 0 <= at < count && IsPlannedAt(sorted, at, policy, deletion)
  {
    if count > 0 {
      DeletionsArePlanned(sorted, count - 1, policy, deletion);
      if IsPlannedAt(sorted, count - 1, policy, deletion) {
        assert deletion == Deletion(sorted[count - 1].id, ReasonAt(sorted, count - 1, policy).value, sorted[count - 1].sizeBytes);
      }
    }
  }

  lemma {:induction false} JoinedFinds(plans: seq<seq<Deletion>>, count: nat, deletion: Deletion) returns (at: nat)
    requires count <= |plans| && deletion in Joined(plans, count)
    ensures at < count && deletion in plans[at]
    decreases count
  {
    if deletion in Joined(plans, count - 1) {
      at := JoinedFinds(plans, count - 1, deletion);
    } else {
      at := count - 1;
    }
  }

  lemma {:induction false} JoinedIncludes(plans: seq<seq<Deletion>>, count: nat, deletion: Deletion, at: nat)
    requires at < count <= |plans| && deletion in plans[at]
    ensures deletion in Joined(plans, count)
    decreases count
  {
    if at < count - 1 {
      JoinedIncludes(plans, count - 1, deletion, at);
    }
  }

  /** A deletion is planned exactly when some entry's rank or size in its family's listing calls for it. */
  lemma PlanHolds(entries: seq<CacheEntry>, policy: Policy, deletion: Deletion)
    ensures deletion in Plan(entries, policy) <==>
              exists family :: family in FamilyNames(entries, policy) && deletion in FamilyPlan(entries, family, policy)
  {
    var families := FamilyNames(entries, policy);
    var plans := FamilyPlans(entries, families, policy);
    if deletion in Plan(entries, policy) {
      var at := JoinedFinds(plans, |plans|, deletion);
      assert families[at] in families && deletion in FamilyPlan(entries, families[at], policy);
    }
    if family :| family in families && deletion in FamilyPlan(entries, family, policy) {
      var at :| 0 <= at < |families| && families[at] == family;
      JoinedIncludes(plans, |plans|, deletion, at);
    }
  }

  ghost function PlannedIds(deletions: seq<Deletion>): set<nat> {
    set deletion | deletion in deletions :: deletion.id
  }

  /** The plan's word on the entry at `at` of its family's listing. */
  lemma PlanDecides(entries: seq<CacheEntry>, policy: Policy, sorted: seq<CacheEntry>, family: string, at: nat)
    requires HaveDistinctIds(entries) && sorted == SortedFamily(entries, family, policy) && at < |sorted|
    ensures forall deletion :: deletion in Plan(entries, policy) && deletion.id == sorted[at].id ==>
              IsPlannedAt(sorted, at, policy, deletion)
    ensures ReasonAt(sorted, at, policy).Some? ==>
              Deletion(sorted[at].id, ReasonAt(sorted, at, policy).value, sorted[at].sizeBytes) in Plan(entries, policy)
  {
    SortedFamilyFacts(entries, family, sorted, policy);
    assert sorted[at] in entries && Family(sorted[at], policy) == family;
    forall deletion | deletion in Plan(entries, policy) && deletion.id == sorted[at].id
      ensures IsPlannedAt(sorted, at, policy, deletion)
    {
      PlanHolds(entries, policy, deletion);
      var other :| other in FamilyNames(entries, policy) && deletion in FamilyPlan(entries, other, policy);
      PlannedOnlyOnce(entries, policy, sorted, family, at, other, deletion);
    }
    if ReasonAt(sorted, at, policy).Some? {
      var deletion := Deletion(sorted[at].id, ReasonAt(sorted, at, policy).value, sorted[at].sizeBytes);
      assert IsPlannedAt(sorted, at, policy, deletion);
      DeletionsArePlanned(sorted, |sorted|, policy, deletion);
      PlanHolds(entries, policy, deletion);
      assert family in FamilyNames(entries, policy);
      assert deletion in FamilyPlan(entries, family, policy);
    }
  }

  lemma PlannedOnlyOnce(entries: seq<CacheEntry>, policy: Policy, sorted: seq<CacheEntry>, family: string, at: nat,
                        other: string, deletion: Deletion)
    requires HaveDistinctIds(entries) && sorted == SortedFamily(entries, family, policy) && at < |sorted|
    requires deletion in FamilyPlan(entries, other, policy) && deletion.id == sorted[at].id
    ensures IsPlannedAt(sorted, at, policy, deletion)
  {
    var otherSorted := SortedFamily(entries, other, policy);
    SortedFamilyFacts(entries, family, sorted, policy);
    SortedFamilyFacts(entries, other, otherSorted, policy);
    DeletionsArePlanned(otherSorted, |otherSorted|, policy, deletion);
    var k :| 0 <= k < |otherSorted| && IsPlannedAt(otherSorted, k, policy, deletion);
    assert otherSorted[k] in otherSorted && sorted[at] in sorted;
    SameIdSameEntry(entries, otherSorted[k], sorted[at]);
    assert other == family && otherSorted == sorted;
    assert k == at;
  }

  // --- The promises ---

  /** Oversize entries are deleted as such, whatever their age; nothing else is, and a surplus entry is never oversize. */
  lemma OversizeGoesFirst(entries: seq<CacheEntry>, policy: Policy, entry: CacheEntry)
    requires HaveDistinctIds(entries) && entry in entries
    ensures var plan := Plan(entries, policy);
            && (Deletion(entry.id, Oversize, entry.sizeBytes) in plan <==> IsOversize(entry, policy))
            && (Deletion(entry.id, Surplus, entry.sizeBytes) in plan ==> !IsOversize(entry, policy))
            && (entry.id in PlannedIds(plan) <==>
                  Deletion(entry.id, Oversize, entry.sizeBytes) in plan || Deletion(entry.id, Surplus, entry.sizeBytes) in plan)
  {
    var family := Family(entry, policy);
    var sorted := SortedFamily(entries, family, policy);
    SortedFamilyFacts(entries, family, sorted, policy);
    var at :| 0 <= at < |sorted| && sorted[at] == entry;
    PlanDecides(entries, policy, sorted, family, at);
  }

  /** An entry the plan leaves alone is at least as new as every surplus one on its shelf. */
  lemma KeptAreNewest(entries: seq<CacheEntry>, policy: Policy, kept: CacheEntry, surplus: CacheEntry)
    requires HaveDistinctIds(entries) && kept in entries && surplus in entries
    requires kept.id !in PlannedIds(Plan(entries, policy))
    requires Deletion(surplus.id, Surplus, surplus.sizeBytes) in Plan(entries, policy)
    requires ShelfOf(kept, policy) == ShelfOf(surplus, policy)
    ensures !Before(kept.createdAt, surplus.createdAt)
  {
    var shelf, family := ShelfOf(kept, policy), Family(kept, policy);
    var sorted := SortedFamily(entries, family, policy);
    SortedFamilyFacts(entries, family, sorted, policy);
    var i :| 0 <= i < |sorted| && sorted[i] == kept;
    var j :| 0 <= j < |sorted| && sorted[j] == surplus;
    GoneIfReason(entries, sorted, family, i, policy);
    PlanDecides(entries, policy, sorted, family, j);
    assert IsPlannedAt(sorted, j, policy, Deletion(surplus.id, Surplus, surplus.sizeBytes));
    KeptComesFirst(sorted, i, j, policy);
  }

  lemma KeptComesFirst(sorted: seq<CacheEntry>, kept: nat, surplus: nat, policy: Policy)
    requires kept < |sorted| && surplus < |sorted| && ShelfOf(sorted[kept], policy) == ShelfOf(sorted[surplus], policy)
    requires ReasonAt(sorted, kept, policy).None? && ReasonAt(sorted, surplus, policy) == Some(Surplus)
    ensures kept < surplus
  {
    if surplus <= kept {
      CompetitorsGrow(sorted, surplus, kept, policy, ShelfOf(sorted[kept], policy));
    }
  }

  lemma {:induction false} CompetitorsGrow(sorted: seq<CacheEntry>, fewer: nat, more: nat, policy: Policy, shelf: Shelf)
    requires fewer <= more <= |sorted|
    ensures CompetitorsAmong(sorted, fewer, policy, shelf) <= CompetitorsAmong(sorted, more, policy, shelf)
    decreases more
  {
    if fewer < more {
      CompetitorsGrow(sorted, fewer, more - 1, policy, shelf);
    }
  }

  /** How many entries outside `gone` compete for the shelf. */
  function CompetitorsOutside(entries: seq<CacheEntry>, gone: set<nat>, policy: Policy, shelf: Shelf): nat {
    if entries == [] then 0 else Weight(entries[0], gone, policy, shelf) + CompetitorsOutside(entries[1..], gone, policy, shelf)
  }

  function Weight(entry: CacheEntry, gone: set<nat>, policy: Policy, shelf: Shelf): nat {
    if entry.id !in gone && Competes(entry, policy, shelf) then 1 else 0
  }

  lemma {:induction false} InsertKeepsCount(entry: CacheEntry, entries: seq<CacheEntry>, gone: set<nat>, policy: Policy, shelf: Shelf)
    ensures CompetitorsOutside(Insert(entry, entries, IsNotOlder), gone, policy, shelf) ==
              Weight(entry, gone, policy, shelf) + CompetitorsOutside(entries, gone, policy, shelf)
  {
    if entries != [] {
      if Before(entry.createdAt, entries[0].createdAt) {
        InsertKeepsCount(entry, entries[1..], gone, policy, shelf);
      } else {
        assert ([entry] + entries)[1..] == entries;
      }
    }
  }

  lemma {:induction false} SortKeepsCount(entries: seq<CacheEntry>, gone: set<nat>, policy: Policy, shelf: Shelf)
    ensures CompetitorsOutside(NewestFirst(entries), gone, policy, shelf) == CompetitorsOutside(entries, gone, policy, shelf)
  {
    if entries != [] {
      SortKeepsCount(entries[1..], gone, policy, shelf);
      InsertKeepsCount(entries[0], NewestFirst(entries[1..]), gone, policy, shelf);
    }
  }

  lemma {:induction false} FamilyKeepsCount(entries: seq<CacheEntry>, gone: set<nat>, policy: Policy, shelf: Shelf)
    ensures CompetitorsOutside(FamilyEntries(entries, shelf.family, policy), gone, policy, shelf) ==
              CompetitorsOutside(entries, gone, policy, shelf)
  {
    if entries != [] {
      FamilyKeepsCount(entries[1..], gone, policy, shelf);
      var rest := FamilyEntries(entries[1..], shelf.family, policy);
      if Family(entries[0], policy) == shelf.family {
        assert ([entries[0]] + rest)[1..] == rest;
      } else {
        assert [] + rest == rest;
      }
    }
  }

  lemma SortedFamilyKeepsCount(entries: seq<CacheEntry>, gone: set<nat>, policy: Policy, shelf: Shelf, sorted: seq<CacheEntry>)
    requires sorted == SortedFamily(entries, shelf.family, policy)
    ensures CompetitorsOutside(sorted, gone, policy, shelf) == CompetitorsOutside(entries, gone, policy, shelf)
  {
    FamilyKeepsCount(entries, gone, policy, shelf);
    SortKeepsCount(FamilyEntries(entries, shelf.family, policy), gone, policy, shelf);
  }

  lemma {:induction false} CountAppends(front: seq<CacheEntry>, last: CacheEntry, gone: set<nat>, policy: Policy, shelf: Shelf)
    ensures CompetitorsOutside(front + [last], gone, policy, shelf) ==
              CompetitorsOutside(front, gone, policy, shelf) + Weight(last, gone, policy, shelf)
  {
    if front == [] {
      assert front + [last] == [last];
    } else {
      assert (front + [last])[1..] == front[1..] + [last];
      CountAppends(front[1..], last, gone, policy, shelf);
    }
  }

  lemma PrefixGrows(sorted: seq<CacheEntry>, count: nat, gone: set<nat>, policy: Policy, shelf: Shelf)
    requires 0 < count <= |sorted|
    ensures CompetitorsOutside(sorted[..count], gone, policy, shelf) ==
              CompetitorsOutside(sorted[..count - 1], gone, policy, shelf) + Weight(sorted[count - 1], gone, policy, shelf)
  {
    assert sorted[..count] == sorted[..count - 1] + [sorted[count - 1]];
    CountAppends(sorted[..count - 1], sorted[count - 1], gone, policy, shelf);
  }

  lemma {:induction false} CountOfPrefix(sorted: seq<CacheEntry>, count: nat, policy: Policy, shelf: Shelf)
    requires count <= |sorted|
    ensures CompetitorsOutside(sorted[..count], {}, policy, shelf) == CompetitorsAmong(sorted, count, policy, shelf)
    decreases count
  {
    if count > 0 {
      CountOfPrefix(sorted, count - 1, policy, shelf);
      PrefixGrows(sorted, count, {}, policy, shelf);
    }
  }

  /** One more entry of the listing: it takes a place while the quota lasts, and is gone otherwise. */
  lemma KeptStep(sorted: seq<CacheEntry>, at: nat, gone: set<nat>, policy: Policy, shelf: Shelf)
    requires at < |sorted| && (sorted[at].id in gone <==> ReasonAt(sorted, at, policy).Some?)
    ensures Min(Quota(shelf), CompetitorsAmong(sorted, at, policy, shelf)) + Weight(sorted[at], gone, policy, shelf) ==
              Min(Quota(shelf), CompetitorsAmong(sorted, at + 1, policy, shelf))
  {
  }

  lemma {:induction false} KeptInPrefix(sorted: seq<CacheEntry>, count: nat, gone: set<nat>, policy: Policy, shelf: Shelf, kept: nat)
    requires count <= |sorted| && kept == CompetitorsOutside(sorted[..count], gone, policy, shelf)
    requires forall at: nat {:trigger ReasonAt(sorted, at, policy)} :: at < |sorted| ==>
               (sorted[at].id in gone <==> ReasonAt(sorted, at, policy).Some?)
    ensures kept == Min(Quota(shelf), CompetitorsAmong(sorted, count, policy, shelf))
    decreases count
  {
    if count > 0 {
      var earlier := CompetitorsOutside(sorted[..count - 1], gone, policy, shelf);
      KeptInPrefix(sorted, count - 1, gone, policy, shelf, earlier);
      PrefixGrows(sorted, count, gone, policy, shelf);
      assert sorted[count - 1].id in gone <==> ReasonAt(sorted, count - 1, policy).Some?;
      KeptStep(sorted, count - 1, gone, policy, shelf);
    }
  }

  lemma GoneIfReason(entries: seq<CacheEntry>, sorted: seq<CacheEntry>, family: string, at: nat, policy: Policy)
    requires HaveDistinctIds(entries) && sorted == SortedFamily(entries, family, policy) && at < |sorted|
    ensures sorted[at].id in PlannedIds(Plan(entries, policy)) <==> ReasonAt(sorted, at, policy).Some?
  {
    PlanDecides(entries, policy, sorted, family, at);
  }

  /** Each shelf keeps exactly its quota of entries that are not oversize, or all of them when fewer. */
  lemma QuotaIsKeptExactly(entries: seq<CacheEntry>, policy: Policy, shelf: Shelf)
    requires HaveDistinctIds(entries)
    ensures CompetitorsOutside(entries, PlannedIds(Plan(entries, policy)), policy, shelf) ==
              Min(Quota(shelf), CompetitorsOutside(entries, {}, policy, shelf))
  {
    var gone, sorted := PlannedIds(Plan(entries, policy)), SortedFamily(entries, shelf.family, policy);
    SortedFamilyKeepsCount(entries, gone, policy, shelf, sorted);
    SortedFamilyKeepsCount(entries, {}, policy, shelf, sorted);
    forall at: nat | at < |sorted|
      ensures sorted[at].id in gone <==> ReasonAt(sorted, at, policy).Some?
    {
      GoneIfReason(entries, sorted, shelf.family, at, policy);
    }
    assert sorted[..|sorted|] == sorted;
    KeptInPrefix(sorted, |sorted|, gone, policy, shelf, CompetitorsOutside(sorted, gone, policy, shelf));
    CountOfPrefix(sorted, |sorted|, policy, shelf);
  }

  // --- No entry twice ---

  ghost predicate NoIdTwice(deletions: seq<Deletion>) {
    forall i, j :: 0 <= i < j < |deletions| ==> deletions[i].id != deletions[j].id
  }

  lemma {:induction false} FamilyPlanNoIdTwice(sorted: seq<CacheEntry>, count: nat, policy: Policy)
    requires HaveDistinctIds(sorted) && count <= |sorted|
    ensures NoIdTwice(DeletionsAmong(sorted, count, policy))
  {
    if count > 0 {
      FamilyPlanNoIdTwice(sorted, count - 1, policy);
      var earlier := DeletionsAmong(sorted, count - 1, policy);
      forall i | 0 <= i < |earlier|
        ensures earlier[i].id != sorted[count - 1].id
      {
        DeletionsArePlanned(sorted, count - 1, policy, earlier[i]);
        assert earlier[i] in earlier;
      }
    }
  }

  lemma PlannedFromFamily(entries: seq<CacheEntry>, family: string, policy: Policy, deletion: Deletion) returns (entry: CacheEntry)
    requires deletion in FamilyPlan(entries, family, policy)
    ensures entry in entries && Family(entry, policy) == family && entry.id == deletion.id
  {
    var sorted := SortedFamily(entries, family, policy);
    SortedFamilyFacts(entries, family, sorted, policy);
    DeletionsArePlanned(sorted, |sorted|, policy, deletion);
    var at :| 0 <= at < |sorted| && IsPlannedAt(sorted, at, policy, deletion);
    entry := sorted[at];
    assert entry in sorted;
  }

  ghost predicate ShareNoId(a: seq<Deletion>, b: seq<Deletion>) {
    forall i, j :: 0 <= i < |a| && 0 <= j < |b| ==> a[i].id != b[j].id
  }

  /** Every list repeats no id and shares none with another. */
  ghost predicate AreApart(plans: seq<seq<Deletion>>) {
    && (forall i :: 0 <= i < |plans| ==> NoIdTwice(plans[i]))
    && (forall i, j :: 0 <= i < j < |plans| ==> ShareNoId(plans[i], plans[j]))
  }

  /** Such lists join to a list that repeats none. */
  lemma {:induction false} JoinedNoIdTwice(plans: seq<seq<Deletion>>, count: nat)
    requires count <= |plans| && AreApart(plans)
    ensures NoIdTwice(Joined(plans, count))
    decreases count
  {
    if count > 0 {
      var earlier, last := Joined(plans, count - 1), plans[count - 1];
      JoinedNoIdTwice(plans, count - 1);
      forall i | 0 <= i < |earlier|
        ensures forall j :: 0 <= j < |last| ==> earlier[i].id != last[j].id
      {
        var at := JoinedFinds(plans, count - 1, earlier[i]);
        assert ShareNoId(plans[at], last);
      }
    }
  }

  lemma FamilyNoIdTwice(entries: seq<CacheEntry>, family: string, policy: Policy)
    requires HaveDistinctIds(entries)
    ensures NoIdTwice(FamilyPlan(entries, family, policy))
  {
    var sorted := SortedFamily(entries, family, policy);
    SortedFamilyFacts(entries, family, sorted, policy);
    FamilyPlanNoIdTwice(sorted, |sorted|, policy);
  }

  lemma FamiliesDeleteApart(entries: seq<CacheEntry>, family: string, other: string, policy: Policy, earlier: Deletion, later: Deletion)
    requires HaveDistinctIds(entries) && family != other
    requires earlier in FamilyPlan(entries, family, policy) && later in FamilyPlan(entries, other, policy)
    ensures earlier.id != later.id
  {
    var a := PlannedFromFamily(entries, family, policy, earlier);
    var b := PlannedFromFamily(entries, other, policy, later);
    if earlier.id == later.id {
      SameIdSameEntry(entries, a, b);
    }
  }

  lemma FamilyPlansAreApart(entries: seq<CacheEntry>, families: seq<string>, policy: Policy)
    requires HaveDistinctIds(entries)
    requires forall i, j :: 0 <= i < j < |families| ==> families[i] != families[j]
    ensures AreApart(FamilyPlans(entries, families, policy))
  {
    var plans := FamilyPlans(entries, families, policy);
    forall i | 0 <= i < |plans|
      ensures NoIdTwice(plans[i])
    {
      FamilyNoIdTwice(entries, families[i], policy);
    }
    forall i, j | 0 <= i < j < |plans|
      ensures ShareNoId(plans[i], plans[j])
    {
      forall k, l | 0 <= k < |plans[i]| && 0 <= l < |plans[j]|
        ensures plans[i][k].id != plans[j][l].id
      {
        FamiliesDeleteApart(entries, families[i], families[j], policy, plans[i][k], plans[j][l]);
      }
    }
  }

  lemma PlannedIsListed(entries: seq<CacheEntry>, policy: Policy, deletion: Deletion)
    requires deletion in Plan(entries, policy)
    ensures exists entry :: entry in entries && entry.id == deletion.id
  {
    PlanHolds(entries, policy, deletion);
    var family :| family in FamilyNames(entries, policy) && deletion in FamilyPlan(entries, family, policy);
    var entry := PlannedFromFamily(entries, family, policy, deletion);
  }

  lemma PlanNoIdTwice(entries: seq<CacheEntry>, policy: Policy)
    requires HaveDistinctIds(entries)
    ensures NoIdTwice(Plan(entries, policy))
  {
    var families := FamilyNames(entries, policy);
    forall i, j | 0 <= i < j < |families|
      ensures families[i] != families[j]
    {
      AscendingDistinct(families, i, j);
    }
    var plans := FamilyPlans(entries, families, policy);
    FamilyPlansAreApart(entries, families, policy);
    JoinedNoIdTwice(plans, |plans|);
  }

  /** No entry is deleted twice, and only listed entries are deleted. */
  lemma NothingDeletedTwice(entries: seq<CacheEntry>, policy: Policy)
    requires HaveDistinctIds(entries)
    ensures NoIdTwice(Plan(entries, policy))
    ensures forall deletion :: deletion in Plan(entries, policy) ==> exists entry :: entry in entries && entry.id == deletion.id
  {
    PlanNoIdTwice(entries, policy);
    forall deletion | deletion in Plan(entries, policy)
      ensures exists entry :: entry in entries && entry.id == deletion.id
    {
      PlannedIsListed(entries, policy, deletion);
    }
  }

  // --- Pruning again ---

  /** The entries a prune leaves behind. */
  function Survivors(entries: seq<CacheEntry>, gone: set<nat>): seq<CacheEntry> {
    if entries == [] then []
    else (if entries[0].id in gone then [] else [entries[0]]) + Survivors(entries[1..], gone)
  }

  lemma {:induction false} SurvivorsFacts(entries: seq<CacheEntry>, gone: set<nat>, policy: Policy, shelf: Shelf)
    ensures forall entry :: entry in Survivors(entries, gone) <==> entry in entries && entry.id !in gone
    ensures CompetitorsOutside(Survivors(entries, gone), {}, policy, shelf) == CompetitorsOutside(entries, gone, policy, shelf)
  {
    if entries != [] {
      SurvivorsFacts(entries[1..], gone, policy, shelf);
      var rest := Survivors(entries[1..], gone);
      assert entries == [entries[0]] + entries[1..];
      if entries[0].id in gone {
        assert [] + rest == rest;
      } else {
        assert ([entries[0]] + rest)[1..] == rest;
      }
    }
  }

  lemma {:induction false} NothingPlanned(sorted: seq<CacheEntry>, count: nat, policy: Policy)
    requires count <= |sorted|
    requires forall at :: 0 <= at < count ==> ReasonAt(sorted, at, policy).None?
    ensures DeletionsAmong(sorted, count, policy) == []
  {
    if count > 0 {
      NothingPlanned(sorted, count - 1, policy);
    }
  }

  lemma SurvivorStays(entries: seq<CacheEntry>, policy: Policy, survivors: seq<CacheEntry>, sorted: seq<CacheEntry>,
                      family: string, at: nat)
    requires HaveDistinctIds(entries)
    requires survivors == Survivors(entries, PlannedIds(Plan(entries, policy)))
    requires sorted == SortedFamily(survivors, family, policy) && at < |sorted|
    ensures ReasonAt(sorted, at, policy).None?
  {
    var gone, entry := PlannedIds(Plan(entries, policy)), sorted[at];
    var shelf := ShelfOf(entry, policy);
    SurvivorsFacts(entries, gone, policy, shelf);
    SortedFamilyFacts(survivors, family, sorted, policy);
    assert entry in sorted;
    OversizeGoesFirst(entries, policy, entry);
    QuotaIsKeptExactly(entries, policy, shelf);
    SortedFamilyKeepsCount(survivors, {}, policy, shelf, sorted);
    CountOfPrefix(sorted, |sorted|, policy, shelf);
    assert sorted[..|sorted|] == sorted;
    CompetitorsGrow(sorted, at + 1, |sorted|, policy, shelf);
  }

  /** Pruning what a prune left deletes nothing more. */
  lemma PruneIsIdempotent(entries: seq<CacheEntry>, policy: Policy)
    requires HaveDistinctIds(entries)
    ensures Plan(Survivors(entries, PlannedIds(Plan(entries, policy))), policy) == []
  {
    var survivors := Survivors(entries, PlannedIds(Plan(entries, policy)));
    var plan := Plan(survivors, policy);
    if plan != [] {
      PlanHolds(survivors, policy, plan[0]);
      var family :| family in FamilyNames(survivors, policy) && plan[0] in FamilyPlan(survivors, family, policy);
      var sorted := SortedFamily(survivors, family, policy);
      forall at | 0 <= at < |sorted|
        ensures ReasonAt(sorted, at, policy).None?
      {
        SurvivorStays(entries, policy, survivors, sorted, family, at);
      }
      NothingPlanned(sorted, |sorted|, policy);
    }
  }
}
