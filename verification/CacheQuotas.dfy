// The retention policy in its own numbers (xtask/src/cache_prune.rs): which keys
// name which family, and how much of each family is kept.

module CacheQuotas {
  import opened Wrappers
  import opened TextSearch
  import opened CachePrune

  // --- The family a key names ---

  /** The shared prefix is taken off a key that has it, and no other key changes. */
  lemma StrippedMeans(cacheKey: string, rest: string)
    ensures StrippedKey("astronomical-v2-" + rest) == rest
    ensures (forall other :: cacheKey != "astronomical-v2-" + other) ==> StrippedKey(cacheKey) == cacheKey
  {
    var key := CACHE_KEY_PREFIX + rest;
    assert key[..|CACHE_KEY_PREFIX|] == CACHE_KEY_PREFIX && key[|CACHE_KEY_PREFIX|..] == rest;
    if StartsWith(cacheKey, CACHE_KEY_PREFIX) {
      assert cacheKey == CACHE_KEY_PREFIX + cacheKey[|CACHE_KEY_PREFIX|..];
    }
  }

  /** A key from another runner names what stands between the prefix and the first dash after it. */
  lemma FamilyOfToken(token: string, rest: string)
    requires '-' !in token && !Contains(token + "-" + rest, "-macOS")
    ensures FamilyOfKey("astronomical-v2-" + token + "-" + rest) == token
  {
    var stripped := token + "-" + rest;
    StrippedMeans("", stripped);
    assert "astronomical-v2-" + token + "-" + rest == "astronomical-v2-" + stripped;
    assert stripped[..|token|] == token && stripped[|token|] == '-';
    FamilyOfAnyKey("astronomical-v2-" + stripped, token);
  }

  // --- How much of a family is kept ---

  /** Only compiler caches have a ceiling. */
  predicate IsTooLarge(entry: CacheEntry) {
    FamilyOfKey(entry.key) == "sccache" && entry.sizeBytes > 680_000_000
  }

  lemma OversizeMeans(entry: CacheEntry, defaultBranchRef: string)
    ensures IsOversize(entry, PolicyFor(defaultBranchRef)) <==> IsTooLarge(entry)
  {
  }

  /** Two native builds and one of everything else on the default branch; no compiler cache and one of everything else over all other refs. */
  function KeepCount(family: string, isDefaultBranch: bool): nat {
    if isDefaultBranch && family == "native-build" then 2
    else if !isDefaultBranch && family == "sccache" then 0
    else 1
  }

  lemma QuotaMeans(family: string, isDefaultBranch: bool)
    ensures Quota(Shelf(family, isDefaultBranch)) == KeepCount(family, isDefaultBranch)
  {
  }

  function CountWhere(entries: seq<CacheEntry>, isCounted: CacheEntry -> bool): nat {
    if entries == [] then 0 else (if isCounted(entries[0]) then 1 else 0) + CountWhere(entries[1..], isCounted)
  }

  predicate IsOn(entry: CacheEntry, defaultBranchRef: string, family: string, isDefaultBranch: bool) {
    !IsTooLarge(entry) && FamilyOfKey(entry.key) == family && (entry.refName == defaultBranchRef) == isDefaultBranch
  }

  lemma CompetesMeans(entry: CacheEntry, defaultBranchRef: string, family: string, isDefaultBranch: bool)
    ensures Competes(entry, PolicyFor(defaultBranchRef), Shelf(family, isDefaultBranch)) <==>
              IsOn(entry, defaultBranchRef, family, isDefaultBranch)
  {
    OversizeMeans(entry, defaultBranchRef);
  }

  lemma {:induction false} CompetitorsCounted(entries: seq<CacheEntry>, gone: set<nat>, policy: Policy, shelf: Shelf,
                                              isCounted: CacheEntry -> bool)
    requires forall entry :: isCounted(entry) <==> entry.id !in gone && Competes(entry, policy, shelf)
    ensures CompetitorsOutside(entries, gone, policy, shelf) == CountWhere(entries, isCounted)
    decreases |entries|
  {
    if entries != [] {
      CompetitorsCounted(entries[1..], gone, policy, shelf, isCounted);
    }
  }

  /** Which entries of a shelf are left when some are gone. */
  function LeftOn(gone: set<nat>, defaultBranchRef: string, family: string, isDefaultBranch: bool): CacheEntry -> bool {
    (entry: CacheEntry) => entry.id !in gone && IsOn(entry, defaultBranchRef, family, isDefaultBranch)
  }

  /** What is left of a family on the default branch, and over all other refs: its number, or all that are not too large. */
  lemma KeptInNumbers(entries: seq<CacheEntry>, defaultBranchRef: string, family: string, isDefaultBranch: bool)
    requires HaveDistinctIds(entries)
    ensures var gone := PlannedIds(Plan(entries, PolicyFor(defaultBranchRef)));
            CountWhere(entries, LeftOn(gone, defaultBranchRef, family, isDefaultBranch))
            == Min(KeepCount(family, isDefaultBranch), CountWhere(entries, LeftOn({}, defaultBranchRef, family, isDefaultBranch)))
  {
    var policy, shelf := PolicyFor(defaultBranchRef), Shelf(family, isDefaultBranch);
    var gone := PlannedIds(Plan(entries, policy));
    forall entry: CacheEntry
      ensures Competes(entry, policy, shelf) <==> IsOn(entry, defaultBranchRef, family, isDefaultBranch)
    {
      CompetesMeans(entry, defaultBranchRef, family, isDefaultBranch);
    }
    CompetitorsCounted(entries, gone, policy, shelf, LeftOn(gone, defaultBranchRef, family, isDefaultBranch));
    CompetitorsCounted(entries, {}, policy, shelf, LeftOn({}, defaultBranchRef, family, isDefaultBranch));
    QuotaIsKeptExactly(entries, policy, shelf);
    QuotaMeans(family, isDefaultBranch);
  }

  /** Exactly the compiler caches above 680 000 000 bytes are deleted for their size. */
  lemma LargeOnesGo(entries: seq<CacheEntry>, defaultBranchRef: string, entry: CacheEntry)
    requires HaveDistinctIds(entries) && entry in entries
    ensures Deletion(entry.id, Oversize, entry.sizeBytes) in Plan(entries, PolicyFor(defaultBranchRef)) <==> IsTooLarge(entry)
  {
    OversizeGoesFirst(entries, PolicyFor(defaultBranchRef), entry);
    OversizeMeans(entry, defaultBranchRef);
  }
}
