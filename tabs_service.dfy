/**
 * Tab list operations and per-vault tab persistence (src/services/tabs-service.ts).
 * `Date.now()` is the `now` parameter; the `tabs.json` store is a map from vault id to
 * that vault's saved tabs, read and written as whole values.
 */
module TabsService {
  import opened Wrappers
  import opened FileNodes
  import opened Sequences

  // Error messages, as the source words them.
  const SaveFailedMessage: string := "Failed to save tabs"

  datatype Tab = Tab(id: string, name: string, path: string, openedAt: int)

  /** The saved tab state of one vault. */
  datatype VaultTabs = VaultTabs(vaultId: string, tabs: seq<Tab>, activeTabId: Option<string>)

  /** The `vaultTabs` record kept under the store's "data" key. */
  type TabsStore = map<string, VaultTabs>

  function Ids(tabs: seq<Tab>): set<string> {
    set t | t in tabs :: t.id
  }

  predicate UniqueIds(tabs: seq<Tab>) {
    forall i, j :: 0 <= i < j < |tabs| ==> tabs[i].id != tabs[j].id
  }

  predicate SortedByOpenedAt(s: seq<Tab>) {
    forall i, j :: 0 <= i < j < |s| ==> s[i].openedAt <= s[j].openedAt
  }

  // ---------------------------------------------------------------------------------------
  // Persistence: loadVaultTabs / saveVaultTabs
  // ---------------------------------------------------------------------------------------

  function EmptyVaultTabs(vaultId: string): VaultTabs {
    VaultTabs(vaultId, [], None)
  }

  /**
   * `loadVaultTabs`: `stored` is what reading the "data" key gave (a failed read is `Err`,
   * an absent key `Ok(None)`). An unknown vault or a failed read gives an empty tab state.
   */
  function LoadVaultTabs(stored: Result<Option<TabsStore>>, vaultId: string): (r: VaultTabs)
    ensures stored.Ok? && stored.value.Some? && vaultId in stored.value.value ==>
              r == stored.value.value[vaultId]
    ensures !(stored.Ok? && stored.value.Some? && vaultId in stored.value.value) ==>
              r == VaultTabs(vaultId, [], None)
  {
    if stored.Ok? && stored.value.Some? && vaultId in stored.value.value then stored.value.value[vaultId]
    else EmptyVaultTabs(vaultId)
  }

  /**
   * What `saveVaultTabs` leaves behind: the record `store.set` wrote (`None` when the read
   * failed and nothing was set), and whether the call succeeded.
   */
  datatype SaveResult = SaveResult(written: Option<TabsStore>, outcome: Result<Unit>)

  /**
   * `saveVaultTabs`: reads the store (starting from an empty record when nothing is stored),
   * replaces this vault's entry and sets the whole record, then flushes it to disk; `flushOk`
   * is whether the flush succeeded. The record is set before the flush, so a failed flush
   * still leaves it in the store.
   */
  function SaveVaultTabs(stored: Result<Option<TabsStore>>, vaultId: string, tabs: seq<Tab>,
                         activeTabId: Option<string>, flushOk: bool): (r: SaveResult)
    ensures r.outcome.Ok? <==> stored.Ok? && flushOk
    ensures stored.Err? ==> r.written == None && r.outcome == Err(stored.error)
    ensures stored.Ok? ==> r.written.Some? && vaultId in r.written.value
                           && r.written.value[vaultId] == VaultTabs(vaultId, tabs, activeTabId)
    ensures stored.Ok? ==> forall v :: v != vaultId ==>
              (v in r.written.value <==> (stored.value.Some? && v in stored.value.value))
    ensures stored.Ok? ==> forall v :: v != vaultId && v in r.written.value ==>
              r.written.value[v] == stored.value.value[v]
  {
    if stored.Err? then SaveResult(None, Err(stored.error))
    else
      var data := stored.value.GetOr(map[]);
      var record := data[vaultId := VaultTabs(vaultId, tabs, activeTabId)];
      SaveResult(Some(record), if flushOk then Ok(Unit) else Err(SaveFailedMessage))
  }

  /**
   * Saving a vault's tabs and then loading that vault gives back what was saved, whether or
   * not the flush succeeded; loading any other vault gives what it gave before.
   */
  lemma {:induction false} SaveThenLoad(stored: Result<Option<TabsStore>>, vaultId: string, tabs: seq<Tab>,
                     activeTabId: Option<string>, flushOk: bool, other: string)
    requires stored.Ok?
    ensures var written := SaveVaultTabs(stored, vaultId, tabs, activeTabId, flushOk).written;
            LoadVaultTabs(Ok(written), vaultId) == VaultTabs(vaultId, tabs, activeTabId)
            && (other != vaultId ==> LoadVaultTabs(Ok(written), other) == LoadVaultTabs(stored, other))
  {
  }

  // ---------------------------------------------------------------------------------------
  // Pure list operations
  // ---------------------------------------------------------------------------------------

  /** `createTabFromFile`: a tab for the node, opened at `now`. */
  function CreateTabFromFile(file: FileNode, now: int): (r: Tab)
    ensures r.id == file.id && r.name == file.name && r.path == file.path && r.openedAt == now
  {
    Tab(file.id, file.name, file.path, now)
  }

  /** `tabs.filter(tab => !ids.has(tab.id))`. */
  function WithoutIds(tabs: seq<Tab>, ids: set<string>): (r: seq<Tab>)
    ensures |r| <= |tabs|
    ensures forall t :: t in r <==> t in tabs && t.id !in ids
  {
    if tabs == [] then []
    else (if tabs[0].id in ids then [] else [tabs[0]]) + WithoutIds(tabs[1..], ids)
  }

  lemma {:induction false} WithoutIdsIsSubsequence(tabs: seq<Tab>, ids: set<string>)
    ensures IsSubsequence(WithoutIds(tabs, ids), tabs)
  {
    if tabs != [] {
      WithoutIdsIsSubsequence(tabs[1..], ids);
      var rest := WithoutIds(tabs[1..], ids);
      var r := WithoutIds(tabs, ids);
      if tabs[0].id !in ids {
        assert r == [tabs[0]] + rest;
        assert r[1..] == rest;
        assert r[0] == tabs[0] && IsSubsequence(r[1..], tabs[1..]);
      } else {
        assert r == rest;
      }
    }
  }

  /** A non-empty list's ids are its head's id and its tail's ids. */
  lemma {:induction false} IdsCons(s: seq<Tab>)
    requires s != []
    ensures Ids(s) == {s[0].id} + Ids(s[1..])
  {
    assert s == [s[0]] + s[1..];
    forall x | x in Ids(s) ensures x in {s[0].id} + Ids(s[1..]) {
      var i :| 0 <= i < |s| && s[i].id == x;
      if i > 0 { assert s[1..][i - 1] == s[i]; }
    }
  }

  /** With distinct ids, the head's id does not occur in the tail, whose ids are distinct too. */
  lemma {:induction false} UniqueIdsTail(s: seq<Tab>)
    requires s != [] && UniqueIds(s)
    ensures UniqueIds(s[1..]) && s[0].id !in Ids(s[1..])
  {
    var rest := s[1..];
    forall i, j | 0 <= i < j < |rest| ensures rest[i].id != rest[j].id {
      assert rest[i] == s[i + 1] && rest[j] == s[j + 1];
    }
    forall j | 0 <= j < |rest| ensures rest[j].id != s[0].id {
      assert rest[j] == s[j + 1];
    }
  }

  /** With no id given twice, the filter drops exactly one tab per id of `ids` that occurs. */
  lemma {:induction false} WithoutIdsLength(tabs: seq<Tab>, ids: set<string>)
    requires UniqueIds(tabs)
    ensures |WithoutIds(tabs, ids)| == |tabs| - |ids * Ids(tabs)|
  {
    if tabs == [] {
      assert ids * Ids(tabs) == {};
    } else {
      UniqueIdsTail(tabs);
      IdsCons(tabs);
      WithoutIdsLength(tabs[1..], ids);
      IntersectFresh(ids, Ids(tabs[1..]), tabs[0].id);
    }
  }

  /** Adding a fresh element `x` to a set adds one to its intersection with `ids` exactly when `x` is listed. */
  lemma {:induction false} IntersectFresh(ids: set<string>, rest: set<string>, x: string)
    requires x !in rest
    ensures |ids * ({x} + rest)| == |ids * rest| + (if x in ids then 1 else 0)
  {
    if x in ids {
      assert ids * ({x} + rest) == (ids * rest) + {x};
    } else {
      assert ids * ({x} + rest) == ids * rest;
    }
  }

  /** Dropping tabs keeps ids distinct. */
  lemma {:induction false} WithoutIdsUnique(tabs: seq<Tab>, ids: set<string>)
    requires UniqueIds(tabs)
    ensures UniqueIds(WithoutIds(tabs, ids))
  {
    if tabs != [] {
      UniqueIdsTail(tabs);
      WithoutIdsUnique(tabs[1..], ids);
      var rest := WithoutIds(tabs[1..], ids);
      if tabs[0].id !in ids {
        assert tabs[0].id !in Ids(rest);
        UniqueIdsCons(tabs[0], rest);
      }
    }
  }

  /** `removeTab`: every tab with that id goes, the others stay in order. */
  function RemoveTab(tabs: seq<Tab>, tabId: string): (r: seq<Tab>)
    ensures forall t :: t in r <==> t in tabs && t.id != tabId
    ensures tabId !in Ids(tabs) ==> r == tabs
  {
    WithoutIdsUnchanged(tabs, {tabId});
    WithoutIds(tabs, {tabId})
  }

  lemma {:induction false} WithoutIdsUnchanged(tabs: seq<Tab>, ids: set<string>)
    ensures ids * Ids(tabs) == {} ==> WithoutIds(tabs, ids) == tabs
  {
    if tabs != [] && ids * Ids(tabs) == {} {
      IdsCons(tabs);
      DisjointFromUnion(ids, tabs[0].id, Ids(tabs[1..]));
      WithoutIdsUnchanged(tabs[1..], ids);
      WithoutIdsKeepsHead(tabs, ids);
      assert tabs == [tabs[0]] + tabs[1..];
    }
  }

  /** A first tab whose id is not listed stays first. */
  lemma {:induction false} WithoutIdsKeepsHead(tabs: seq<Tab>, ids: set<string>)
    requires tabs != [] && tabs[0].id !in ids
    ensures WithoutIds(tabs, ids) == [tabs[0]] + WithoutIds(tabs[1..], ids)
  {
  }

  /** A set disjoint from `{x} + rest` misses `x` and is disjoint from `rest`. */
  lemma {:induction false} DisjointFromUnion(ids: set<string>, x: string, rest: set<string>)
    requires ids * ({x} + rest) == {}
    ensures x !in ids && ids * rest == {}
  {
    assert (x in ids) == (x in ids * ({x} + rest));
    assert ids * rest <= ids * ({x} + rest);
  }

  lemma {:induction false} RemoveTabKeepsOrder(tabs: seq<Tab>, tabId: string)
    ensures IsSubsequence(RemoveTab(tabs, tabId), tabs)
  {
    WithoutIdsIsSubsequence(tabs, {tabId});
  }

  /** `touchTab`: only the matching tab's `openedAt` changes, to `now`. */
  function TouchTab(tabs: seq<Tab>, tabId: string, now: int): (r: seq<Tab>)
    ensures |r| == |tabs|
    ensures forall i :: 0 <= i < |tabs| ==>
              r[i].id == tabs[i].id && r[i].name == tabs[i].name && r[i].path == tabs[i].path
              && r[i].openedAt == (if tabs[i].id == tabId then now else tabs[i].openedAt)
  {
    seq(|tabs|, i requires 0 <= i < |tabs| =>
      if tabs[i].id == tabId then tabs[i].(openedAt := now) else tabs[i])
  }

  lemma {:induction false} TouchTabKeepsIds(tabs: seq<Tab>, tabId: string, now: int)
    ensures Ids(TouchTab(tabs, tabId, now)) == Ids(tabs)
    ensures UniqueIds(tabs) ==> UniqueIds(TouchTab(tabs, tabId, now))
  {
    var r := TouchTab(tabs, tabId, now);
    forall x | x in Ids(tabs) ensures x in Ids(r) {
      var i :| 0 <= i < |tabs| && tabs[i].id == x;
      assert r[i] in r;
    }
    forall x | x in Ids(r) ensures x in Ids(tabs) {
      var i :| 0 <= i < |r| && r[i].id == x;
      assert tabs[i] in tabs;
    }
  }

  // ---------------------------------------------------------------------------------------
  // LRU eviction: enforceMaxTabs
  // ---------------------------------------------------------------------------------------

  /** Inserts `x` before the first tab opened no earlier than it. */
  function Insert(x: Tab, s: seq<Tab>): (r: seq<Tab>)
    ensures |r| == |s| + 1
  {
    if s == [] then [x]
    else if x.openedAt <= s[0].openedAt then [x] + s
    else [s[0]] + Insert(x, s[1..])
  }

  /** `[...tabs].sort((a, b) => a.openedAt - b.openedAt)`: a stable sort, oldest first. */
  function SortByOpenedAt(s: seq<Tab>): (r: seq<Tab>)
    ensures |r| == |s|
  {
    if s == [] then [] else Insert(s[0], SortByOpenedAt(s[1..]))
  }

  lemma {:induction false} InsertMultiset(x: Tab, s: seq<Tab>)
    ensures multiset(Insert(x, s)) == multiset(s) + multiset{x}
  {
    if s != [] && x.openedAt > s[0].openedAt {
      InsertMultiset(x, s[1..]);
      assert s == [s[0]] + s[1..];
    }
  }

  lemma {:induction false} InsertIds(x: Tab, s: seq<Tab>)
    ensures Ids(Insert(x, s)) == Ids(s) + {x.id}
  {
    if s == [] {
      assert Ids([x]) == {x.id};
    } else if x.openedAt > s[0].openedAt {
      InsertIds(x, s[1..]);
      IdsCons(s);
      IdsCons([s[0]] + Insert(x, s[1..]));
      assert ([s[0]] + Insert(x, s[1..]))[1..] == Insert(x, s[1..]);
    } else {
      IdsCons([x] + s);
      assert ([x] + s)[1..] == s;
    }
  }

  /** The inserted list holds exactly `x` and the tabs of `s`. */
  lemma {:induction false} InsertElems(x: Tab, s: seq<Tab>)
    ensures forall t :: t in Insert(x, s) <==> t == x || t in s
  {
    if s != [] && x.openedAt > s[0].openedAt {
      InsertElems(x, s[1..]);
      assert s == [s[0]] + s[1..];
    }
  }

  /** A sorted list stays sorted under a new head opened no later than any of its tabs. */
  lemma {:induction false} ConsSorted(h: Tab, t: seq<Tab>)
    requires SortedByOpenedAt(t)
    requires forall j :: 0 <= j < |t| ==> h.openedAt <= t[j].openedAt
    ensures SortedByOpenedAt([h] + t)
  {
    var r := [h] + t;
    forall i, j | 0 <= i < j < |r| ensures r[i].openedAt <= r[j].openedAt {
      assert r[j] == t[j - 1];
      if i > 0 { assert r[i] == t[i - 1]; }
    }
  }

  lemma {:induction false} InsertSorted(x: Tab, s: seq<Tab>)
    requires SortedByOpenedAt(s)
    ensures SortedByOpenedAt(Insert(x, s))
  {
    if s == [] {
      ConsSorted(x, s);
    } else if x.openedAt <= s[0].openedAt {
      ConsSorted(x, s);
    } else {
      var t := s[1..];
      var rest := Insert(x, t);
      assert SortedByOpenedAt(t) by {
        forall i, j | 0 <= i < j < |t| ensures t[i].openedAt <= t[j].openedAt {
          assert t[i] == s[i + 1] && t[j] == s[j + 1];
        }
      }
      InsertSorted(x, t);
      InsertElems(x, t);
      forall j | 0 <= j < |rest| ensures s[0].openedAt <= rest[j].openedAt {
        assert rest[j] in rest;
        if rest[j] != x {
          var k :| 0 <= k < |t| && t[k] == rest[j];
          assert s[k + 1] == rest[j];
        }
      }
      ConsSorted(s[0], rest);
    }
  }

  lemma {:induction false} InsertUnique(x: Tab, s: seq<Tab>)
    requires UniqueIds(s) && x.id !in Ids(s)
    ensures UniqueIds(Insert(x, s))
  {
    if s != [] && x.openedAt > s[0].openedAt {
      UniqueIdsTail(s);
      IdsCons(s);
      InsertUnique(x, s[1..]);
      InsertIds(x, s[1..]);
      UniqueIdsCons(s[0], Insert(x, s[1..]));
    } else if s != [] {
      UniqueIdsCons(x, s);
    }
  }

  lemma {:induction false} UniqueIdsCons(x: Tab, s: seq<Tab>)
    requires UniqueIds(s) && x.id !in Ids(s)
    ensures UniqueIds([x] + s)
  {
    var t := [x] + s;
    forall i, j | 0 <= i < j < |t| ensures t[i].id != t[j].id {
      if i == 0 {
        assert t[j] == s[j - 1];
        assert s[j - 1] in s;
      } else {
        assert t[i] == s[i - 1] && t[j] == s[j - 1];
      }
    }
  }

  lemma {:induction false} SortFacts(s: seq<Tab>)
    ensures multiset(SortByOpenedAt(s)) == multiset(s)
    ensures Ids(SortByOpenedAt(s)) == Ids(s)
    ensures SortedByOpenedAt(SortByOpenedAt(s))
  {
    SortMultiset(s);
    SortIds(s);
    SortSorted(s);
  }

  lemma {:induction false} SortMultiset(s: seq<Tab>)
    ensures multiset(SortByOpenedAt(s)) == multiset(s)
  {
    if s != [] {
      SortMultiset(s[1..]);
      InsertMultiset(s[0], SortByOpenedAt(s[1..]));
      assert s == [s[0]] + s[1..];
    }
  }

  lemma {:induction false} SortIds(s: seq<Tab>)
    ensures Ids(SortByOpenedAt(s)) == Ids(s)
  {
    if s != [] {
      SortIds(s[1..]);
      InsertIds(s[0], SortByOpenedAt(s[1..]));
      IdsCons(s);
    }
  }

  lemma {:induction false} SortSorted(s: seq<Tab>)
    ensures SortedByOpenedAt(SortByOpenedAt(s))
  {
    if s != [] {
      SortSorted(s[1..]);
      InsertSorted(s[0], SortByOpenedAt(s[1..]));
    }
  }

  lemma {:induction false} SortUnique(s: seq<Tab>)
    requires UniqueIds(s)
    ensures UniqueIds(SortByOpenedAt(s))
  {
    if s != [] {
      UniqueIdsTail(s);
      SortUnique(s[1..]);
      SortFacts(s[1..]);
      InsertUnique(s[0], SortByOpenedAt(s[1..]));
    }
  }

  lemma {:induction false} SortedByOpenedAtAndPermutation(s: seq<Tab>)
    ensures SortedByOpenedAt(SortByOpenedAt(s))
    ensures multiset(SortByOpenedAt(s)) == multiset(s)
  {
    SortFacts(s);
  }

  /**
   * The ids the eviction loop collects from the oldest-first list `sorted`: it walks the
   * list, skips the protected id, and takes tabs until `toRemove` of them are taken.
   */
  function EvictionIds(sorted: seq<Tab>, toRemove: int, excludeId: Option<string>): set<string>
  {
    if sorted == [] || toRemove <= 0 then {}
    else if Some(sorted[0].id) != excludeId then {sorted[0].id} + EvictionIds(sorted[1..], toRemove - 1, excludeId)
    else EvictionIds(sorted[1..], toRemove, excludeId)
  }

  /** What `enforceMaxTabs(tabs, maxTabs, excludeId)` returns. */
  function LruEvict(tabs: seq<Tab>, maxTabs: int, excludeId: Option<string>): seq<Tab> {
    if |tabs| <= maxTabs then tabs
    else WithoutIds(tabs, EvictionIds(SortByOpenedAt(tabs), |tabs| - maxTabs, excludeId))
  }

  /** `enforceMaxTabs`: LRU eviction of the oldest tabs other than `excludeId`. */
  method EnforceMaxTabs(tabs: seq<Tab>, maxTabs: int, excludeId: Option<string>) returns (r: seq<Tab>)
    ensures r == LruEvict(tabs, maxTabs, excludeId)
    ensures |tabs| <= maxTabs ==> r == tabs
  {
    if |tabs| <= maxTabs {
      return tabs;
    }
    var sortedTabs := SortByOpenedAt(tabs);
    var toRemove := |tabs| - maxTabs;
    var removed := 0;
    var idsToRemove: set<string> := {};
    for i := 0 to |sortedTabs|
      invariant idsToRemove + EvictionIds(sortedTabs[i..], toRemove - removed, excludeId)
                == EvictionIds(sortedTabs, toRemove, excludeId)
    {
      if removed >= toRemove {
        break;
      }
      assert sortedTabs[i..][1..] == sortedTabs[i + 1..];
      if Some(sortedTabs[i].id) != excludeId {
        idsToRemove := idsToRemove + {sortedTabs[i].id};
        removed := removed + 1;
      }
    }
    r := WithoutIds(tabs, idsToRemove);
  }

  // Properties of the eviction ------------------------------------------------------------

  function NonExcludedCount(s: seq<Tab>, excludeId: Option<string>): nat {
    if s == [] then 0
    else (if Some(s[0].id) != excludeId then 1 else 0) + NonExcludedCount(s[1..], excludeId)
  }

  /** The collected ids are ids of the list. */
  lemma {:induction false} EvictionIdsSubset(sorted: seq<Tab>, toRemove: int, excludeId: Option<string>)
    ensures EvictionIds(sorted, toRemove, excludeId) <= Ids(sorted)
  {
    if sorted != [] && toRemove > 0 {
      var k := if Some(sorted[0].id) != excludeId then toRemove - 1 else toRemove;
      EvictionIdsSubset(sorted[1..], k, excludeId);
      IdsCons(sorted);
    }
  }

  /** The protected id is never collected. */
  lemma {:induction false} EvictionIdsExcluded(sorted: seq<Tab>, toRemove: int, excludeId: Option<string>)
    ensures excludeId.Some? ==> excludeId.value !in EvictionIds(sorted, toRemove, excludeId)
  {
    if sorted != [] && toRemove > 0 {
      var k := if Some(sorted[0].id) != excludeId then toRemove - 1 else toRemove;
      EvictionIdsExcluded(sorted[1..], k, excludeId);
    }
  }

  /** With distinct ids, min(toRemove, number of unprotected tabs) ids are collected. */
  lemma {:induction false} EvictionIdsCount(sorted: seq<Tab>, toRemove: int, excludeId: Option<string>)
    requires UniqueIds(sorted) && toRemove >= 0
    ensures |EvictionIds(sorted, toRemove, excludeId)|
            == if toRemove < NonExcludedCount(sorted, excludeId) then toRemove
               else NonExcludedCount(sorted, excludeId)
  {
    if sorted != [] && toRemove > 0 {
      var rest := sorted[1..];
      var k := if Some(sorted[0].id) != excludeId then toRemove - 1 else toRemove;
      UniqueIdsTail(sorted);
      EvictionIdsCount(rest, k, excludeId);
      EvictionIdsSubset(rest, k, excludeId);
      assert sorted[0].id !in EvictionIds(rest, k, excludeId);
    }
  }

  lemma {:induction false} EvictionIdsFacts(sorted: seq<Tab>, toRemove: int, excludeId: Option<string>)
    ensures EvictionIds(sorted, toRemove, excludeId) <= Ids(sorted)
    ensures excludeId.Some? ==> excludeId.value !in EvictionIds(sorted, toRemove, excludeId)
    ensures UniqueIds(sorted) && toRemove >= 0 ==>
              |EvictionIds(sorted, toRemove, excludeId)|
              == if toRemove < NonExcludedCount(sorted, excludeId) then toRemove
                 else NonExcludedCount(sorted, excludeId)
  {
    EvictionIdsSubset(sorted, toRemove, excludeId);
    EvictionIdsExcluded(sorted, toRemove, excludeId);
    if UniqueIds(sorted) && toRemove >= 0 {
      EvictionIdsCount(sorted, toRemove, excludeId);
    }
  }

  lemma {:induction false} NonExcludedCountInsert(x: Tab, s: seq<Tab>, excludeId: Option<string>)
    ensures NonExcludedCount(Insert(x, s), excludeId)
            == NonExcludedCount(s, excludeId) + (if Some(x.id) != excludeId then 1 else 0)
  {
    if s != [] && x.openedAt > s[0].openedAt {
      NonExcludedCountInsert(x, s[1..], excludeId);
      assert ([s[0]] + Insert(x, s[1..]))[1..] == Insert(x, s[1..]);
    } else if s != [] {
      assert ([x] + s)[1..] == s;
    }
  }

  lemma {:induction false} NonExcludedCountSort(s: seq<Tab>, excludeId: Option<string>)
    ensures NonExcludedCount(SortByOpenedAt(s), excludeId) == NonExcludedCount(s, excludeId)
  {
    if s != [] {
      NonExcludedCountSort(s[1..], excludeId);
      NonExcludedCountInsert(s[0], SortByOpenedAt(s[1..]), excludeId);
    }
  }

  /** Below the bound nothing changes. */
  lemma {:induction false} EnforceWithinLimit(tabs: seq<Tab>, maxTabs: int, excludeId: Option<string>)
    requires |tabs| <= maxTabs
    ensures LruEvict(tabs, maxTabs, excludeId) == tabs
  {
  }

  /** Eviction keeps ids distinct. */
  lemma {:induction false} LruEvictUnique(tabs: seq<Tab>, maxTabs: int, excludeId: Option<string>)
    requires UniqueIds(tabs)
    ensures UniqueIds(LruEvict(tabs, maxTabs, excludeId))
  {
    if |tabs| > maxTabs {
      WithoutIdsUnique(tabs, EvictionIds(SortByOpenedAt(tabs), |tabs| - maxTabs, excludeId));
    }
  }

  /** The protected tab is never evicted, and the survivors keep their relative order. */
  lemma {:induction false} EnforceKeepsExcludedAndOrder(tabs: seq<Tab>, maxTabs: int, excludeId: Option<string>)
    ensures IsSubsequence(LruEvict(tabs, maxTabs, excludeId), tabs)
    ensures forall t :: t in tabs && Some(t.id) == excludeId ==> t in LruEvict(tabs, maxTabs, excludeId)
    ensures forall t :: t in LruEvict(tabs, maxTabs, excludeId) ==> t in tabs
  {
    if |tabs| > maxTabs {
      var sorted := SortByOpenedAt(tabs);
      EvictionIdsFacts(sorted, |tabs| - maxTabs, excludeId);
      WithoutIdsIsSubsequence(tabs, EvictionIds(sorted, |tabs| - maxTabs, excludeId));
    } else {
      SubsequenceOfSelf(tabs);
    }
  }

  /**
   * With distinct ids, exactly min(|tabs| - maxTabs, number of unprotected tabs) tabs are
   * evicted; so the bound is met whenever enough unprotected tabs exist.
   */
  lemma {:induction false} EnforceCount(tabs: seq<Tab>, maxTabs: int, excludeId: Option<string>)
    requires UniqueIds(tabs) && |tabs| > maxTabs
    ensures var n := NonExcludedCount(tabs, excludeId);
            |LruEvict(tabs, maxTabs, excludeId)|
            == |tabs| - (if |tabs| - maxTabs < n then |tabs| - maxTabs else n)
  {
    var sorted := SortByOpenedAt(tabs);
    var toRemove := |tabs| - maxTabs;
    var e := EvictionIds(sorted, toRemove, excludeId);
    assert LruEvict(tabs, maxTabs, excludeId) == WithoutIds(tabs, e);
    SortFacts(tabs);
    SortUnique(tabs);
    NonExcludedCountSort(tabs, excludeId);
    EvictionIdsFacts(sorted, toRemove, excludeId);
    WithoutIdsLength(tabs, e);
    assert e * Ids(tabs) == e;
  }

  /** On a list sorted oldest first, every collected tab comes before every skipped unprotected one. */
  lemma {:induction false} EvictionIdsPrefix(sorted: seq<Tab>, toRemove: int, excludeId: Option<string>,
                                            ia: nat, ib: nat)
    requires UniqueIds(sorted)
    requires ia < |sorted| && sorted[ia].id in EvictionIds(sorted, toRemove, excludeId)
    requires ib < |sorted| && sorted[ib].id !in EvictionIds(sorted, toRemove, excludeId)
    requires Some(sorted[ib].id) != excludeId
    ensures ia < ib
  {
    var rest := sorted[1..];
    UniqueIdsTail(sorted);
    if Some(sorted[0].id) != excludeId {
      var later := EvictionIds(rest, toRemove - 1, excludeId);
      assert EvictionIds(sorted, toRemove, excludeId) == {sorted[0].id} + later;
      if ia > 0 {
        assert rest[ia - 1] == sorted[ia] && rest[ib - 1] == sorted[ib];
        assert sorted[ia].id in later by {
          assert sorted[ia].id != sorted[0].id;
        }
        EvictionIdsPrefix(rest, toRemove - 1, excludeId, ia - 1, ib - 1);
      }
    } else {
      assert EvictionIds(sorted, toRemove, excludeId) == EvictionIds(rest, toRemove, excludeId);
      EvictionIdsExcluded(sorted, toRemove, excludeId);
      assert ia > 0 && ib > 0;
      assert rest[ia - 1] == sorted[ia] && rest[ib - 1] == sorted[ib];
      EvictionIdsPrefix(rest, toRemove, excludeId, ia - 1, ib - 1);
    }
  }

  lemma {:induction false} IndexInSorted(tabs: seq<Tab>, x: Tab) returns (i: nat)
    requires x in tabs
    ensures i < |SortByOpenedAt(tabs)| && SortByOpenedAt(tabs)[i] == x
  {
    SortFacts(tabs);
    var sorted := SortByOpenedAt(tabs);
    assert x in multiset(tabs);
    assert x in sorted;
    i :| 0 <= i < |sorted| && sorted[i] == x;
  }

  /** LRU: every evicted tab was opened no later than every surviving unprotected tab. */
  lemma {:induction false} EnforceEvictsOldest(tabs: seq<Tab>, maxTabs: int, excludeId: Option<string>, evicted: Tab, kept: Tab)
    requires UniqueIds(tabs)
    requires evicted in tabs && evicted !in LruEvict(tabs, maxTabs, excludeId)
    requires kept in LruEvict(tabs, maxTabs, excludeId) && Some(kept.id) != excludeId
    ensures evicted.openedAt <= kept.openedAt
  {
    var ia, ib := EvictedBeforeKept(tabs, maxTabs, excludeId, evicted, kept);
    SortedOrder(tabs, ia, ib);
  }

  /** In the oldest-first list, every evicted tab precedes every surviving unprotected tab. */
  lemma {:induction false} EvictedBeforeKept(tabs: seq<Tab>, maxTabs: int, excludeId: Option<string>,
                                            evicted: Tab, kept: Tab) returns (ia: nat, ib: nat)
    requires UniqueIds(tabs)
    requires evicted in tabs && evicted !in LruEvict(tabs, maxTabs, excludeId)
    requires kept in LruEvict(tabs, maxTabs, excludeId) && Some(kept.id) != excludeId
    ensures ia < ib < |tabs|
    ensures SortByOpenedAt(tabs)[ia] == evicted && SortByOpenedAt(tabs)[ib] == kept
  {
    var sorted := SortByOpenedAt(tabs);
    EvictedAndKept(tabs, maxTabs, excludeId, evicted, kept);
    ia := IndexInSorted(tabs, evicted);
    ib := IndexInSorted(tabs, kept);
    SortUnique(tabs);
    EvictionIdsPrefix(sorted, |tabs| - maxTabs, excludeId, ia, ib);
  }

  /** A tab missing after the eviction had its id collected; a surviving tab did not. */
  lemma {:induction false} EvictedAndKept(tabs: seq<Tab>, maxTabs: int, excludeId: Option<string>, evicted: Tab, kept: Tab)
    requires evicted in tabs && evicted !in LruEvict(tabs, maxTabs, excludeId)
    requires kept in LruEvict(tabs, maxTabs, excludeId)
    ensures |tabs| > maxTabs && kept in tabs
    ensures var e := EvictionIds(SortByOpenedAt(tabs), |tabs| - maxTabs, excludeId);
            evicted.id in e && kept.id !in e
  {
    var e := EvictionIds(SortByOpenedAt(tabs), |tabs| - maxTabs, excludeId);
    assert |tabs| > maxTabs;
    assert LruEvict(tabs, maxTabs, excludeId) == WithoutIds(tabs, e);
  }

  /**
   * Ties keep list order: of two unprotected tabs opened at the same time, the eviction
   * takes the one that comes first in the tab list before the other.
   */
  lemma {:induction false} EnforceEvictsEarlierOnTie(tabs: seq<Tab>, maxTabs: int, excludeId: Option<string>,
                                                    p: nat, q: nat)
    requires UniqueIds(tabs) && p < |tabs| && q < |tabs|
    requires tabs[p] !in LruEvict(tabs, maxTabs, excludeId)
    requires tabs[q] in LruEvict(tabs, maxTabs, excludeId) && Some(tabs[q].id) != excludeId
    requires tabs[p].openedAt == tabs[q].openedAt
    ensures p < q
  {
    var ia, ib := EvictedBeforeKept(tabs, maxTabs, excludeId, tabs[p], tabs[q]);
    if q < p {
      SortStable(tabs, q, p, ib, ia);
    }
  }

  /** Where `Insert` puts `x`: after the tabs opened strictly earlier, before the rest. */
  lemma {:induction false} InsertShape(x: Tab, t: seq<Tab>) returns (k: nat)
    ensures k <= |t| && Insert(x, t)[k] == x
    ensures forall j :: 0 <= j < k ==> Insert(x, t)[j] == t[j] && t[j].openedAt < x.openedAt
    ensures forall j :: k < j <= |t| ==> Insert(x, t)[j] == t[j - 1]
  {
    if t == [] || x.openedAt <= t[0].openedAt {
      k := 0;
    } else {
      var k' := InsertShape(x, t[1..]);
      k := k' + 1;
      var r := Insert(x, t);
      assert r == [t[0]] + Insert(x, t[1..]);
      forall j | 0 < j < k ensures r[j] == t[j] && t[j].openedAt < x.openedAt {
        assert t[j] == t[1..][j - 1];
      }
      forall j | k < j <= |t| ensures r[j] == t[j - 1] {
        assert t[j - 1] == t[1..][j - 2];
      }
    }
  }

  /** The sort is stable: tabs opened at the same time keep their relative order. */
  lemma {:induction false} SortStable(s: seq<Tab>, p: nat, q: nat, ip: nat, iq: nat)
    requires UniqueIds(s) && p < q < |s| && s[p].openedAt == s[q].openedAt
    requires ip < |s| && SortByOpenedAt(s)[ip] == s[p]
    requires iq < |s| && SortByOpenedAt(s)[iq] == s[q]
    ensures ip < iq
    decreases |s|
  {
    var u := s[1..];
    var t := SortByOpenedAt(u);
    assert SortByOpenedAt(s) == Insert(s[0], t);
    assert s[0].id != s[q].id;
    if p == 0 {
      SortUnique(s);
      InsertPrecedesTies(s[0], t, s[q], ip, iq);
    } else {
      assert s[0].id != s[p].id;
      var jp, jq := InsertKeepsOrder(s[0], t, s[p], s[q], ip, iq);
      assert u[p - 1] == s[p] && u[q - 1] == s[q];
      UniqueIdsTail(s);
      assert t[jp] == u[p - 1] && t[jq] == u[q - 1];
      SortStable(u, p - 1, q - 1, jp, jq);
    }
  }

  /** `Insert` puts `x` before every tab opened at the same time. */
  lemma {:induction false} InsertPrecedesTies(x: Tab, t: seq<Tab>, y: Tab, ix: nat, iy: nat)
    requires UniqueIds(Insert(x, t)) && ix <= |t| && iy <= |t|
    requires Insert(x, t)[ix] == x && Insert(x, t)[iy] == y
    requires y.id != x.id && y.openedAt == x.openedAt
    ensures ix < iy
  {
    var k := InsertShape(x, t);
    SamePosition(Insert(x, t), ix, k);
  }

  /** `Insert` keeps the relative order of the tabs already in the list. */
  lemma {:induction false} InsertKeepsOrder(x: Tab, t: seq<Tab>, y: Tab, z: Tab, iy: nat, iz: nat)
    returns (jy: nat, jz: nat)
    requires iy <= |t| && iz <= |t| && Insert(x, t)[iy] == y && Insert(x, t)[iz] == z
    requires y != x && z != x
    ensures jy < |t| && t[jy] == y && jz < |t| && t[jz] == z
    ensures jy < jz ==> iy < iz
  {
    var k := InsertShape(x, t);
    assert iy != k && iz != k;
    jy := if iy < k then iy else iy - 1;
    jz := if iz < k then iz else iz - 1;
  }

  /** With distinct ids a tab occurs at one position only. */
  lemma {:induction false} SamePosition(r: seq<Tab>, i: nat, j: nat)
    requires UniqueIds(r) && i < |r| && j < |r| && r[i] == r[j]
    ensures i == j
  {
  }

  lemma {:induction false} SortedOrder(tabs: seq<Tab>, i: nat, j: nat)
    requires i < j < |SortByOpenedAt(tabs)|
    ensures SortByOpenedAt(tabs)[i].openedAt <= SortByOpenedAt(tabs)[j].openedAt
  {
    SortFacts(tabs);
  }
}
