/**
 * The tabs provider (src/contexts/tabs-context.tsx): the open tabs of the current vault,
 * which one is active, and the per-vault save/load on a vault switch. React state setters
 * become field assignments; `settings.maxTabs`, `Date.now()` and the store's success or
 * failure are parameters; the store itself is the `store` field.
 */
module TabsContext {
  import opened Wrappers
  import opened FileNodes
  import opened TabsService

  /** The error standing for a failed read of the store. */
  const ReadFailedMessage: string := "Failed to read tabs"

  /** `tabs.find(t => t.id === id)`: the first tab with that id. */
  function FindTab(tabs: seq<Tab>, id: string): (r: Option<nat>)
    ensures r.Some? <==> id in Ids(tabs)
    ensures r.Some? ==> r.value < |tabs| && tabs[r.value].id == id
    ensures r.Some? ==> forall j :: 0 <= j < r.value ==> tabs[j].id != id
  {
    if tabs == [] then None
    else if tabs[0].id == id then Some(0)
    else
      IdsCons(tabs);
      match FindTab(tabs[1..], id)
      case None => None
      case Some(k) => Some(k + 1)
  }

  /**
   * The tab `closeTab` activates: the head of the list sorted newest first by a stable
   * sort, i.e. the first tab whose `openedAt` is the largest.
   */
  function MostRecentIndex(tabs: seq<Tab>): (r: nat)
    requires tabs != []
    ensures r < |tabs|
    ensures forall j :: 0 <= j < |tabs| ==> tabs[j].openedAt <= tabs[r].openedAt
    ensures forall j :: 0 <= j < r ==> tabs[j].openedAt < tabs[r].openedAt
  {
    if |tabs| == 1 then 0
    else
      var k := MostRecentIndex(tabs[1..]) + 1;
      if tabs[0].openedAt >= tabs[k].openedAt then 0 else k
  }

  /** The state the provider keeps consistent: distinct tab ids, and an active id that names a tab. */
  predicate ValidTabs(tabs: seq<Tab>, activeTabId: Option<string>) {
    UniqueIds(tabs) && (activeTabId.Some? ==> activeTabId.value in Ids(tabs))
  }

  /**
   * Closing a tab keeps the state consistent: another active tab survives the removal,
   * and the most recent remaining tab is one of them.
   */
  lemma {:induction false} CloseKeepsValid(tabs: seq<Tab>, activeTabId: Option<string>, tabId: string)
    requires ValidTabs(tabs, activeTabId)
    ensures var u := RemoveTab(tabs, tabId);
            && UniqueIds(u)
            && (activeTabId.Some? && activeTabId.value != tabId ==> activeTabId.value in Ids(u))
            && (u != [] ==> u[MostRecentIndex(u)].id in Ids(u))
  {
    var u := RemoveTab(tabs, tabId);
    WithoutIdsUnique(tabs, {tabId});
    if activeTabId.Some? && activeTabId.value != tabId {
      var k :| k in tabs && k.id == activeTabId.value;
      assert k in u;
    }
    if u != [] {
      assert u[MostRecentIndex(u)] in u;
    }
  }

  /** Every vault's saved record is a consistent tab state. */
  predicate ValidStore(store: Option<TabsStore>) {
    store.Some? ==> forall v :: v in store.value ==> ValidTabs(store.value[v].tabs, store.value[v].activeTabId)
  }

  /** Not a tab's id: protecting it from eviction protects exactly the other tabs. */
  lemma {:induction false} NonExcludedCountFresh(tabs: seq<Tab>, id: string)
    requires id !in Ids(tabs)
    ensures NonExcludedCount(tabs, Some(id)) == |tabs|
  {
    if tabs != [] {
      IdsCons(tabs);
      NonExcludedCountFresh(tabs[1..], id);
    }
  }

  lemma {:induction false} NonExcludedCountAppend(tabs: seq<Tab>, x: Tab, excludeId: Option<string>)
    ensures NonExcludedCount(tabs + [x], excludeId)
            == NonExcludedCount(tabs, excludeId) + (if Some(x.id) != excludeId then 1 else 0)
  {
    if tabs != [] {
      assert (tabs + [x])[1..] == tabs[1..] + [x];
      NonExcludedCountAppend(tabs[1..], x, excludeId);
    }
  }

  lemma {:induction false} AppendFreshUnique(tabs: seq<Tab>, x: Tab)
    requires UniqueIds(tabs) && x.id !in Ids(tabs)
    ensures UniqueIds(tabs + [x]) && Ids(tabs + [x]) == Ids(tabs) + {x.id}
  {
    var s := tabs + [x];
    forall i, j | 0 <= i < j < |s|
      ensures s[i].id != s[j].id
    {
      if j == |tabs| {
        assert s[i] in tabs;
      }
    }
  }

  /**
   * Opening a new file on a list with distinct ids leaves min(n + 1, maxTabs) tabs for a
   * positive `maxTabs` (the new tab pushes out one old tab once the limit is reached), and
   * only the new tab for a `maxTabs` below one.
   */
  lemma {:induction false} OpenNewTabCount(tabs: seq<Tab>, file: FileNode, maxTabs: int, now: int)
    requires UniqueIds(tabs) && file.id !in Ids(tabs)
    ensures var r := LruEvict(tabs + [CreateTabFromFile(file, now)], maxTabs, Some(file.id));
            (maxTabs >= 1 ==> |r| == if |tabs| + 1 <= maxTabs then |tabs| + 1 else maxTabs)
            && (maxTabs < 1 ==> |r| == 1)
  {
    var x := CreateTabFromFile(file, now);
    AppendFreshUnique(tabs, x);
    NonExcludedCountAppend(tabs, x, Some(file.id));
    NonExcludedCountFresh(tabs, file.id);
    if |tabs| + 1 > maxTabs {
      EnforceCount(tabs + [x], maxTabs, Some(file.id));
    }
  }

  /**
   * Opening a new file keeps ids distinct, keeps the new tab, and keeps a list that was
   * within a positive `maxTabs` within it.
   */
  lemma {:induction false} OpenNewTabFacts(tabs: seq<Tab>, file: FileNode, maxTabs: int, now: int)
    requires UniqueIds(tabs) && file.id !in Ids(tabs)
    ensures var r := LruEvict(tabs + [CreateTabFromFile(file, now)], maxTabs, Some(file.id));
            UniqueIds(r) && file.id in Ids(r)
            && (maxTabs >= 1 && |tabs| <= maxTabs ==> |r| <= maxTabs)
  {
    OpenNewTabUnique(tabs, file, maxTabs, now);
    OpenNewTabKept(tabs, file, maxTabs, now);
    if maxTabs >= 1 {
      OpenNewTabWithinLimit(tabs, file, maxTabs, now);
    }
  }

  lemma {:induction false} OpenNewTabUnique(tabs: seq<Tab>, file: FileNode, maxTabs: int, now: int)
    requires UniqueIds(tabs) && file.id !in Ids(tabs)
    ensures UniqueIds(LruEvict(tabs + [CreateTabFromFile(file, now)], maxTabs, Some(file.id)))
  {
    AppendFreshUnique(tabs, CreateTabFromFile(file, now));
    LruEvictUnique(tabs + [CreateTabFromFile(file, now)], maxTabs, Some(file.id));
  }

  lemma {:induction false} OpenNewTabKept(tabs: seq<Tab>, file: FileNode, maxTabs: int, now: int)
    ensures file.id in Ids(LruEvict(tabs + [CreateTabFromFile(file, now)], maxTabs, Some(file.id)))
  {
    var x := CreateTabFromFile(file, now);
    var u := tabs + [x];
    EnforceKeepsExcludedAndOrder(u, maxTabs, Some(file.id));
    assert x in u;
    assert x in LruEvict(u, maxTabs, Some(file.id));
  }

  /** The tab list never grows past a positive `maxTabs` by opening a file. */
  lemma {:induction false} OpenNewTabWithinLimit(tabs: seq<Tab>, file: FileNode, maxTabs: int, now: int)
    requires UniqueIds(tabs) && file.id !in Ids(tabs) && maxTabs >= 1
    ensures |LruEvict(tabs + [CreateTabFromFile(file, now)], maxTabs, Some(file.id))| <= maxTabs
  {
    OpenNewTabCount(tabs, file, maxTabs, now);
  }

  class TabsProvider {
    var tabs: seq<Tab>
    var activeTabId: Option<string>
    var isLoading: bool
    var error: Option<string>
    /** `prevVaultIdRef`: the vault whose tabs are shown. */
    var prevVaultId: Option<string>
    /** The "data" record of `tabs.json`; `None` while nothing was ever written. */
    var store: Option<TabsStore>

    ghost predicate Valid()
      reads this
    {
      ValidTabs(tabs, activeTabId)
    }

    constructor (store: Option<TabsStore>)
      ensures Valid() && tabs == [] && activeTabId == None && !isLoading && error == None
      ensures prevVaultId == None && this.store == store
    {
      tabs := [];
      activeTabId := None;
      isLoading := false;
      error := None;
      prevVaultId := None;
      this.store := store;
    }

    /**
     * `openTab`: folders are ignored; an open file is touched and activated; a new file is
     * appended, the list trimmed to `maxTabs` with the new tab protected, and activated.
     */
    method OpenTab(file: FileNode, maxTabs: int, now: int)
      requires Valid()
      modifies this
      ensures Valid()
      ensures unchanged(this`isLoading) && unchanged(this`error) && unchanged(this`store)
      ensures unchanged(this`prevVaultId)
      ensures file.kind != File ==> tabs == old(tabs) && activeTabId == old(activeTabId)
      ensures file.kind == File ==> activeTabId == Some(file.id) && file.id in Ids(tabs)
      ensures file.kind == File && file.id in old(Ids(tabs)) ==> tabs == TouchTab(old(tabs), file.id, now)
      ensures file.kind == File && file.id !in old(Ids(tabs)) ==>
                tabs == LruEvict(old(tabs) + [CreateTabFromFile(file, now)], maxTabs, Some(file.id))
      ensures file.kind == File && maxTabs >= 1 && |old(tabs)| <= maxTabs ==> |tabs| <= maxTabs
    {
      if file.kind != File {
        return;
      }
      var existing := FindTab(tabs, file.id);
      if existing.Some? {
        TouchTabKeepsIds(tabs, file.id, now);
        tabs := TouchTab(tabs, file.id, now);
        activeTabId := Some(file.id);
        return;
      }
      var newTab := CreateTabFromFile(file, now);
      OpenNewTabFacts(tabs, file, maxTabs, now);
      var updated := EnforceMaxTabs(tabs + [newTab], maxTabs, Some(file.id));
      tabs := updated;
      activeTabId := Some(file.id);
    }

    /**
     * `closeTab`: removes the tab; when it was the active one, the most recently opened
     * remaining tab becomes active, or none when no tab remains.
     */
    method CloseTab(tabId: string)
      requires Valid()
      modifies this`tabs, this`activeTabId
      ensures Valid()
      ensures tabs == RemoveTab(old(tabs), tabId)
      ensures old(activeTabId) != Some(tabId) ==> activeTabId == old(activeTabId)
      ensures old(activeTabId) == Some(tabId) && tabs == [] ==> activeTabId == None
      ensures old(activeTabId) == Some(tabId) && tabs != [] ==>
                activeTabId == Some(tabs[MostRecentIndex(tabs)].id)
    {
      var updated := RemoveTab(tabs, tabId);
      CloseKeepsValid(tabs, activeTabId, tabId);
      tabs := updated;
      if activeTabId == Some(tabId) {
        if |updated| > 0 {
          var m := MostRecentIndex(updated);
          activeTabId := Some(updated[m].id);
        } else {
          activeTabId := None;
        }
      }
    }

    /**
     * `setActiveTab`: an unknown id changes nothing; otherwise the tab is touched and made
     * active, and the result is the file node handed to the file tree's `selectFile`.
     */
    method SetActiveTab(tabId: string, now: int) returns (selection: Option<FileNode>)
      requires Valid()
      modifies this`tabs, this`activeTabId
      ensures Valid()
      ensures selection.Some? <==> tabId in old(Ids(tabs))
      ensures selection.None? ==> tabs == old(tabs) && activeTabId == old(activeTabId)
      ensures selection.Some? ==>
                tabs == TouchTab(old(tabs), tabId, now) && activeTabId == Some(tabId)
                && selection.value.id == tabId && selection.value.kind == File
                && selection.value.children == NoChildren
                && exists t :: t in old(tabs) && t.id == tabId
                               && selection.value.name == t.name && selection.value.path == t.path
    {
      var found := FindTab(tabs, tabId);
      if found.None? {
        return None;
      }
      var tab := tabs[found.value];
      TouchTabKeepsIds(tabs, tabId, now);
      tabs := TouchTab(tabs, tabId, now);
      activeTabId := Some(tabId);
      selection := Some(FileNode(tab.id, tab.name, tab.path, File, NoChildren));
    }

    /** `closeAllTabs`. */
    method CloseAllTabs()
      modifies this`tabs, this`activeTabId
      ensures Valid() && tabs == [] && activeTabId == None
    {
      tabs := [];
      activeTabId := None;
    }

    /**
     * `loadTabs`: shows the saved tabs of `vaultId` (none when the read fails or the vault
     * has nothing saved). The service never fails, so the provider's own catch branch, which
     * would also clear the tabs, is never taken.
     */
    method LoadTabs(vaultId: string, readOk: bool)
      modifies this`tabs, this`activeTabId, this`isLoading, this`error
      ensures var loaded := LoadVaultTabs(if readOk then Ok(store) else Err(ReadFailedMessage), vaultId);
              tabs == loaded.tabs && activeTabId == loaded.activeTabId
      ensures !readOk || store.None? || vaultId !in store.value ==> tabs == [] && activeTabId == None
      ensures ValidStore(store) ==> Valid()
      ensures !isLoading && error == None
    {
      isLoading := true;
      error := None;
      var loaded := LoadVaultTabs(if readOk then Ok(store) else Err(ReadFailedMessage), vaultId);
      tabs := loaded.tabs;
      activeTabId := loaded.activeTabId;
      isLoading := false;
    }

    /**
     * The effect run when the current vault changes: the previous vault's tabs are saved
     * (when its id is non-empty and differs from the new one), then the new vault's tabs are
     * loaded, or the list is cleared when there is no current vault. `saveReadOk` says
     * whether the save's read of the store succeeds (a failed one sets nothing), `flushOk`
     * whether its flush to disk does (the record is set in the store either way); a failed
     * save is only logged. `readOk` says whether the load's read succeeds.
     */
    method CurrentVaultChanged(current: Option<string>, saveReadOk: bool, flushOk: bool, readOk: bool)
      requires Valid() && ValidStore(store)
      modifies this
      ensures Valid() && ValidStore(store)
      ensures var savePrev := old(prevVaultId).Some? && old(prevVaultId).value != ""
                              && Some(old(prevVaultId).value) != current;
              store == if savePrev && saveReadOk
                       then SaveVaultTabs(Ok(old(store)), old(prevVaultId).value, old(tabs), old(activeTabId),
                                          flushOk).written
                       else old(store)
      ensures current.None? || current.value == "" ==>
                tabs == [] && activeTabId == None && prevVaultId == None
                && isLoading == old(isLoading) && error == old(error)
      ensures current.Some? && current.value != "" ==>
                prevVaultId == current && !isLoading && error == None
                && var loaded := LoadVaultTabs(if readOk then Ok(store) else Err(ReadFailedMessage), current.value);
                   tabs == loaded.tabs && activeTabId == loaded.activeTabId
    {
      if prevVaultId.Some? && prevVaultId.value != "" && Some(prevVaultId.value) != current {
        var read: Result<Option<TabsStore>> := if saveReadOk then Ok(store) else Err(ReadFailedMessage);
        var saved := SaveVaultTabs(read, prevVaultId.value, tabs, activeTabId, flushOk);
        if saved.written.Some? {
          store := saved.written;
        }
      }
      if current.None? || current.value == "" {
        tabs := [];
        activeTabId := None;
        prevVaultId := None;
        return;
      }
      prevVaultId := current;
      LoadTabs(current.value, readOk);
    }
  }

  /**
   * Switching from vault `a` to vault `b` and back, with the store's reads working, brings
   * back exactly the tabs and active tab `a` had, whether or not the flushes succeed.
   */
  method SwitchAwayAndBack(p: TabsProvider, a: string, b: string, flushAway: bool, flushBack: bool)
    requires p.Valid() && ValidStore(p.store) && p.prevVaultId == Some(a) && a != "" && b != "" && a != b
    modifies p
    ensures p.tabs == old(p.tabs) && p.activeTabId == old(p.activeTabId) && p.prevVaultId == Some(a)
  {
    p.CurrentVaultChanged(Some(b), true, flushAway, true);
    p.CurrentVaultChanged(Some(a), true, flushBack, true);
  }

  /**
   * When the save's read fails on the way out of vault `a`, nothing is set, so coming back
   * shows what the store held for `a` before, not the tabs that were open.
   */
  method SwitchAwayUnsavedAndBack(p: TabsProvider, a: string, b: string, flushBack: bool)
    requires p.Valid() && ValidStore(p.store) && p.prevVaultId == Some(a) && a != "" && b != "" && a != b
    modifies p
    ensures var before := LoadVaultTabs(Ok(old(p.store)), a);
            p.tabs == before.tabs && p.activeTabId == before.activeTabId && p.prevVaultId == Some(a)
  {
    p.CurrentVaultChanged(Some(b), false, true, true);
    p.CurrentVaultChanged(Some(a), true, flushBack, true);
  }
}
