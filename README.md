# yana workspace core in Dafny

yana is a desktop note app: a Tauri (Rust) backend reads a folder of markdown notes (a
*vault*), and a React frontend shows it as a file tree with an editor and tabs. This project
models the in-memory workspace logic of that app:

- **the tab registry**: the open tabs with their LRU eviction, the active tab, and per-vault
  persistence of tabs;
- **the vault registry**: the list of vaults, its single default vault and the derived current
  vault;
- **the file-tree controller**: the scanned tree, the selected file and its content, and the
  loading and error state;
- **the backend tree construction and naming**: the directory scan with its filtering and
  ordering, the unique-name searches of "new note" and "duplicate", the read and delete guards,
  and the mapping of watcher events;
- **the tree helpers of the UI**: node-to-element conversion, the id-to-node map, the expand
  toggle, expand-all, expansion of a selected element's ancestors, the image test and the
  rename target;
- **the small services**: keyboard-shortcut matching and dispatch, the bounded history of
  file-open measurements, the folder-to-template map, and the settings merged over defaults.

Every call into the outside world becomes a parameter holding its outcome. This covers
Tauri's `invoke`, the `LazyStore` files, dialogs, the filesystem, `Date.now()`,
`performance.now()`, UUIDs and Rust's `DefaultHasher`. A read is a `Result` value or a
`readOk` flag, a save or write a `saveOk`/`writeOk` flag (`flushOk` for a store whose in-memory `set` comes before the flush to disk), and a clock reading is `now`. The id
hash is a function `hash: string -> string` about which nothing is assumed beyond being a
function.

One Dafny module per source file:

| module | file | form |
|---|---|---|
| `Wrappers` | — | `Option`, `Result`, `Unit` |
| `Strings` | — | trim, `lastIndexOf`, decimal digits, lower-casing |
| `FileNodes` | src/types/file-tree.ts | the `FileNode` datatype and its depth-first enumeration |
| `TabsService` | src/services/tabs-service.ts | functions, and a method with a loop for `enforceMaxTabs` |
| `TabsContext` | src/contexts/tabs-context.tsx | class `TabsProvider` |
| `VaultService` | src/services/vault-service.ts | functions |
| `VaultContext` | src/contexts/vault-context.tsx | class `VaultProvider` |
| `FileTreeContext` | src/contexts/file-tree-context.tsx | class `FileTreeProvider` |
| `FileTreeScan` | src-tauri/src/commands/file_tree.rs | path helpers, the scan as a function and as loop methods |
| `FileTreeCommands` | src-tauri/src/commands/file_tree.rs | class `Disk` with the commands; event mapping |
| `FileTreeView` | src/components/file-tree.tsx | functions, a loop method for `createNodeMap`, class `RenameField` |
| `TreeView` | src/components/ui/file-tree.tsx | functions, loop methods, class `Tree` |
| `CommandMenu` | src/components/command-menu.tsx | a loop method for `allFiles` |
| `KeyboardShortcuts` | src/lib/keyboard-shortcuts.ts | a function and a loop method |
| `PerformanceTracker` | src/services/performance-tracker.ts | class `Tracker` |
| `TemplateService` | src/services/template-service.ts | class `Templates` |
| `SettingsService` | src/services/settings-service.ts | functions |

The main invariants are these:

- **tabs:** tab ids are unique, and the active id is absent or names an open tab (`TabsContext.ValidTabs`);
- **vaults:** vault ids are unique, and at most one vault is the default (`VaultContext.ValidVaults`);
- **file tree:** a file is selected exactly when its content is loaded, and only files are selected (`FileTreeContext.FileTreeProvider.Valid`);
- **disk:** no path is both a file and a directory (`FileTreeCommands.Disk.Valid`);
- **metrics:** the history holds at most ten entries, and its snapshot is current (`PerformanceTracker.Tracker.Valid`).

## Model

| member | source | states |
|---|---|---|
| TabsService.LoadVaultTabs | src/services/tabs-service.ts:22-43 | a stored vault's entry is returned as stored; an unknown vault, a missing record or a failed read give no tabs and no active tab |
| TabsService.SaveVaultTabs | src/services/tabs-service.ts:51-74 | after a successful read the record set in the store has the vault's entry exactly as saved, every other entry as it was and no entry added, even when the flush then fails; the call succeeds exactly when the read and the flush do |
| TabsService.SaveThenLoad | src/services/tabs-service.ts:22-74 | loading a vault after saving it returns what was saved, whether or not the flush succeeded, and loading any other vault returns what it returned before |
| TabsService.CreateTabFromFile | src/services/tabs-service.ts:81-88 | the tab carries the node's id, name and path and the opening time |
| TabsService.EnforceMaxTabs | src/services/tabs-service.ts:98-120 | the loop that collects ids oldest first, skipping the protected id, computes the LRU eviction `LruEvict`; within the limit the list is returned unchanged |
| TabsService.EnforceWithinLimit | src/services/tabs-service.ts:99-101 | a list within the limit is not changed |
| TabsService.EnforceKeepsExcludedAndOrder | src/services/tabs-service.ts:111-119 | the protected tab is never evicted; survivors are tabs of the input in their original relative order |
| TabsService.EnforceCount | src/services/tabs-service.ts:107-117 | with unique ids exactly min(length − limit, number of unprotected tabs) tabs are evicted |
| TabsService.EnforceEvictsOldest | src/services/tabs-service.ts:104-117 | every evicted tab was opened no later than every surviving unprotected tab |
| TabsService.SortedByOpenedAtAndPermutation | src/services/tabs-service.ts:104 | the oldest-first sort is ordered by opening time and is a permutation of its input |
| TabsService.EnforceEvictsEarlierOnTie | src/services/tabs-service.ts:104-117 | of two unprotected tabs opened at the same time, an evicted one comes before a kept one in the tab list |
| TabsService.EvictedBeforeKept | src/services/tabs-service.ts:104-117 | in the oldest-first list every evicted tab precedes every kept unprotected tab |
| TabsService.SortStable | src/services/tabs-service.ts:104 | the sort is stable: tabs opened at the same time keep their relative order |
| TabsService.InsertShape | src/services/tabs-service.ts:104 | an inserted tab goes after the tabs opened strictly earlier and before all others, which keep their order |
| TabsService.InsertPrecedesTies | src/services/tabs-service.ts:104 | an inserted tab goes before every tab opened at the same time |
| TabsService.InsertKeepsOrder | src/services/tabs-service.ts:104 | insertion keeps the relative order of the tabs already in the list |
| TabsService.SortedOrder | src/services/tabs-service.ts:104 | any two positions of the sorted list are in opening-time order |
| TabsService.WithoutIdsLength | src/services/tabs-service.ts:119 | with unique ids, filtering out a set of ids removes exactly as many tabs as there are listed ids among them |
| TabsService.RemoveTab | src/services/tabs-service.ts:128-130 | exactly the tabs with another id remain; an unknown id leaves the list unchanged |
| TabsService.RemoveTabKeepsOrder | src/services/tabs-service.ts:128-130 | the remaining tabs keep their relative order |
| TabsService.TouchTab | src/services/tabs-service.ts:139-143 | same length and order; only the matching tab's opening time changes, to `now` |
| TabsService.TouchTabKeepsIds | src/services/tabs-service.ts:139-143 | the set of ids, and their uniqueness, are unchanged |
| TabsContext.FindTab | src/contexts/tabs-context.tsx:92 | the first position holding the id, present exactly when some tab has that id |
| TabsContext.MostRecentIndex | src/contexts/tabs-context.tsx:130-133 | the first tab, in list order, with the largest opening time (what a stable newest-first sort puts first) |
| TabsContext.OpenNewTabWithinLimit | src/contexts/tabs-context.tsx:101-113 | appending a new tab and evicting with it protected keeps the tab count within a limit of at least one |
| TabsContext.TabsProvider.OpenTab | src/contexts/tabs-context.tsx:85-116 | a folder changes nothing; an open file is touched and made active; a new file is appended, eviction runs with it protected, and it is made active; ids stay unique, the active tab stays valid, and a list within the limit stays within it |
| TabsContext.TabsProvider.CloseTab | src/contexts/tabs-context.tsx:121-140 | the tab is removed; an active tab being closed hands over to the most recently opened remaining tab, or to none; otherwise the active id is kept |
| TabsContext.CloseKeepsValid | src/contexts/tabs-context.tsx:121-140 | closing keeps tab ids distinct, keeps any other active tab, and hands over to a tab that is still open |
| TabsContext.TabsProvider.SetActiveTab | src/contexts/tabs-context.tsx:145-171 | an unknown id changes nothing and selects nothing; a known one is touched, made active, and its file (id, name, path, type file) is requested for selection |
| TabsContext.TabsProvider.CloseAllTabs | src/contexts/tabs-context.tsx:176-179 | no tabs and no active tab |
| TabsContext.TabsProvider.LoadTabs | src/contexts/tabs-context.tsx:49-66 | tabs and active id become the vault's stored ones, or empty when there is none or the read fails; loading ends false |
| TabsContext.TabsProvider.CurrentVaultChanged | src/contexts/tabs-context.tsx:182-197 | the previous vault's tabs are set in the store when it differs from the new one and the save's read succeeds, whether or not the flush does; a failed read leaves the store as it was; no current vault clears the tabs and leaves the loading and error state alone, otherwise the new vault's tabs are loaded with loading ended and no error |
| TabsContext.SwitchAwayAndBack | src/contexts/tabs-context.tsx:182-197 | switching from vault a to vault b and back restores a's tabs and active tab, even when the flushes fail |
| TabsContext.SwitchAwayUnsavedAndBack | src/contexts/tabs-context.tsx:74-77 | when the save's read fails on leaving vault a, coming back shows what the store held for a before, not the tabs that were open |
| VaultService.LoadVaults | src/services/vault-service.ts:23-36 | the stored list, or an empty one when nothing is stored or the read fails |
| VaultService.NormalizedPath | src/services/vault-service.ts:62-67 | backslashes become '/', and one trailing separator is dropped exactly when the path ends in '/' or '\\' |
| VaultService.ExtractFolderName | src/services/vault-service.ts:61-71 | the folder name holds neither '/' nor '\\' |
| VaultService.FolderNameIsLastSegment | src/services/vault-service.ts:61-71 | the folder name is the part of the normalised path after its last '/', or all of it when there is none |
| VaultService.FolderNameOfPlainName | src/services/vault-service.ts:61-71 | a path without separators is its own folder name |
| VaultService.FolderNameIgnoresTrailingSeparator | src/services/vault-service.ts:61-71 | a trailing '/' or '\\' does not change the folder name, so "/a/b/" names the same folder as "/a/b" |
| VaultService.FolderNameOfWindowsPath | src/services/vault-service.ts:61-71 | `C:\\notes\\work\\` gives "work" |
| Strings.AfterLastIsSuffix | src/services/vault-service.ts:69-70 | a separator-free suffix that is the whole string or follows a separator is the last `split` segment |
| VaultService.FolderNameOfRoot | src/services/vault-service.ts:61-71 | "/" gives "" |
| VaultService.ChooseAndAddVault | src/services/vault-service.ts:88-120 | fails, saving nothing, when the picker gives no folder or the save fails; otherwise the vault, named after its folder and default iff the list was empty, is appended at the end |
| VaultService.SetDefaultVault | src/services/vault-service.ts:130-145 | an unknown id or a failed save is an error; otherwise `isDefault` is true exactly on the entries with that id, all else unchanged |
| VaultService.MarkDefault | src/services/vault-service.ts:136-139 | same length; each entry keeps its fields except `isDefault`, which becomes "has this id" |
| VaultService.RemoveVault | src/services/vault-service.ts:154-175 | an unknown id or a failed save is an error; otherwise the vault is removed, the others kept in order, and when the removed one was default the first remaining becomes default |
| VaultService.WithoutVault | src/services/vault-service.ts:160 | exactly the vaults with another id remain |
| VaultService.WithoutVaultKeepsOrder | src/services/vault-service.ts:160 | the remaining vaults keep their original relative order |
| VaultService.WithoutVaultHead | src/services/vault-service.ts:160 | the first remaining vault is the first vault with another id |
| VaultService.RemoveDefaultPromotesFirstOther | src/services/vault-service.ts:154-175 | removing the default vault makes the first vault with another id, in stored order, the only default |
| VaultService.MarkFirstDefault | src/services/vault-service.ts:164-169 | same length; only the first entry is default, other fields unchanged |
| VaultService.UpdateVaultName | src/services/vault-service.ts:184-198 | an unknown id or a failed save is an error; otherwise only that vault's name changes, to the trimmed new name |
| VaultService.AddKeepsAtMostOneDefault | src/services/vault-service.ts:107-116 | adding a vault keeps at most one default |
| VaultService.AddFirstIsDefault | src/services/vault-service.ts:111 | the first vault added is the default |
| VaultService.SetDefaultExactlyOne | src/services/vault-service.ts:136-139 | with unique ids, after setting a default exactly one vault is default |
| VaultService.RemoveKeepsAtMostOneDefault | src/services/vault-service.ts:154-175 | removing keeps at most one default, and keeps exactly one when the removed vault was the default and others remain |
| VaultService.RemoveNonDefaultKeepsFlags | src/services/vault-service.ts:160-169 | removing a non-default vault only filters it out; every other entry is unchanged |
| VaultService.OperationsKeepIds | src/services/vault-service.ts:136-192 | marking, renaming and reassigning the default keep the set of ids; removing drops exactly the removed id |
| VaultService.WithoutVaultUnique | src/services/vault-service.ts:160 | removing keeps ids unique |
| VaultService.FirstDefault | src/contexts/vault-context.tsx:23 | the first default position, absent exactly when no vault is default |
| VaultService.FirstDefaultIsOnlyDefault | src/contexts/vault-context.tsx:23 | with at most one default, the first default is the only one |
| VaultContext.VaultProvider.CurrentVault | src/contexts/vault-context.tsx:23 | present exactly when some vault is default, and then a default vault of the list |
| VaultContext.VaultProvider.Load | src/contexts/vault-context.tsx:26-43 | the loaded list, empty when nothing is stored or the read fails; loading ends false |
| VaultContext.VaultProvider.AddVault | src/contexts/vault-context.tsx:49-64 | on success the new vault is appended, saved and returned; on cancel or a failed save the service's error is recorded, nothing is returned and the list is unchanged; the first vault added becomes current |
| VaultContext.VaultProvider.SetDefaultVault | src/contexts/vault-context.tsx:70-84 | on success the list is the service's result and the vault is current; on failure the error is recorded and returned and the list is unchanged; loading ends false |
| VaultContext.VaultProvider.RemoveVault | src/contexts/vault-context.tsx:90-104 | on success the list is the service's result and the id is gone; removing the current vault makes the first remaining one current, removing another keeps the current one; on failure nothing changes but the error |
| VaultContext.SetDefaultKeepsValid | src/services/vault-service.ts:130-145 | setting a default keeps ids unique and leaves exactly one default |
| VaultContext.RemoveKeepsValid | src/services/vault-service.ts:154-175 | removing keeps ids unique and at most one default; removing the default hands it to the new first vault |
| VaultContext.RemoveOtherKeepsCurrent | src/services/vault-service.ts:154-175 | removing a vault that is not current keeps the current vault |
| Strings.TrimEmptyIff | src/contexts/file-tree-context.tsx:36 | a string trims to "" exactly when it is all whitespace |
| Strings.LastIndexOf | src/components/file-tree.tsx:285 | the last position of the character, or −1 when it does not occur |
| FileNodes.PreorderHasDescendants | src/components/file-tree.tsx:63-70 | every node below a root is in the depth-first enumeration |
| FileTreeContext.BlankIsTrimEmpty | src/contexts/file-tree-context.tsx:36 | the blank test is "trims to the empty string" |
| FileTreeContext.DescendantRemoved | src/contexts/file-tree-context.tsx:136 | a path below the deleted one loses the selection |
| FileTreeContext.SiblingNotRemoved | src/contexts/file-tree-context.tsx:136 | a sibling whose name merely extends the deleted name (/a/bc for /a/b) keeps it |
| FileTreeContext.FileTreeProvider.LoadFileTree | src/contexts/file-tree-context.tsx:34-56 | a blank path records "Invalid vault path: path is empty", empties the tree and skips the scan; a scan's result replaces the tree and clears the error; a failed scan empties it and records the error; loading ends false |
| FileTreeContext.FileTreeProvider.Refresh | src/contexts/file-tree-context.tsx:62-66 | reloads only for a non-empty current vault path, otherwise nothing changes; a reload follows loadFileTree: a whitespace-only path empties the tree and records "Invalid vault path: path is empty" without scanning, a scan's result replaces the tree, a failed scan empties it and records the error, and loading ends false |
| FileTreeContext.FileTreeProvider.SelectFile | src/contexts/file-tree-context.tsx:73-103 | folders and the already selected id are ignored; a blank path records "Invalid file path" and keeps the selection; a read sets file and content together, a failed read keeps both and records the error |
| FileTreeContext.FileTreeProvider.CreateNewNote | src/contexts/file-tree-context.tsx:109-123 | a failed create records the error and keeps the selection; a created note is selected through `selectFile`: a successful read selects it with its content and clears the error, a failed read keeps the selection and records the read's error, a blank path keeps the selection and records "Invalid file path", a folder or the already selected note leaves the selection and clears the error |
| FileTreeContext.FileTreeProvider.DeleteNode | src/contexts/file-tree-context.tsx:129-149 | after a successful delete the selection and content are cleared exactly when the selected path is the deleted one or lies below it; a failed delete keeps them and records the error |
| FileTreeContext.FileTreeProvider.VaultPathChanged | src/contexts/file-tree-context.tsx:152-163 | no vault path clears the tree, the selection, the content and the error and ends loading; otherwise the selection is kept and the tree is reloaded as loadFileTree does: a whitespace-only path empties the tree and records "Invalid vault path: path is empty", a scan's result replaces the tree, a failed scan empties it and records the error, and loading ends false |
| FileTreeScan.Join | src-tauri/src/commands/file_tree.rs:250 | the name at the end, preceded by the directory and one separator |
| FileTreeScan.FileName | src-tauri/src/commands/file_tree.rs:51-54 | the last component, without separators, never "." or ".." |
| FileTreeScan.FileNameSkipsTrailingDot | src-tauri/src/commands/file_tree.rs:51-54 | a trailing "/." or "/" does not change the file name, so "foo.txt/." is named "foo.txt" |
| FileTreeScan.StripTrailing | src-tauri/src/commands/file_tree.rs:51-54 | the result is a prefix of the path that ends neither in a separator nor in a "/." component |
| FileTreeScan.FileNameOfJoin | src-tauri/src/commands/file_tree.rs:101-104 | a plain name joined to a directory is that entry's file name |
| FileTreeScan.SupportedIffWhitelisted | src-tauri/src/commands/file_tree.rs:13 | a dotted name is supported exactly when its extension is in the list, compared case-sensitively ("md" and "MD" pass, "Md" does not) |
| FileTreeScan.NoDotUnsupported | src-tauri/src/commands/file_tree.rs:72-77 | a name without an extension is not supported |
| FileTreeScan.NewNode | src-tauri/src/commands/file_tree.rs:49-68 | the id is the hash of the path string, the name its last component, the path the given one |
| FileTreeScan.IdDeterminedByPath | src-tauri/src/commands/file_tree.rs:56-59 | nodes at the same path get the same id and name; different ids mean different paths |
| FileTreeScan.SortByNameFacts | src-tauri/src/commands/file_tree.rs:132-133 | the name sort is a permutation ordered by lower-cased name |
| FileTreeScan.ScanDirectoryRecursive | src-tauri/src/commands/file_tree.rs:80-138 | the one-pass loop into folders and files, then sort and concatenation, computes the scan `ScanDir`; an unreadable directory is an error |
| FileTreeScan.ScanEntry | src-tauri/src/commands/file_tree.rs:90-128 | the loop body computes one entry's contribution to `ScanDir` |
| FileTreeScan.ScanDirectory | src-tauri/src/commands/file_tree.rs:142-169 | a missing path or a non-directory is an error; a directory is scanned |
| FileTreeScan.ScanFoldersFirst | src-tauri/src/commands/file_tree.rs:135-137 | a readable directory scans successfully with all folders before all files |
| FileTreeScan.ScanSortedByName | src-tauri/src/commands/file_tree.rs:131-133 | within each group the scan is ordered by lower-cased name |
| FileTreeScan.ScanShapeAndContents | src-tauri/src/commands/file_tree.rs:106-128 | no scanned node is hidden; folders carry children; files are supported leaves; the scan holds exactly the entries' nodes |
| FileTreeScan.HiddenSkipped | src-tauri/src/commands/file_tree.rs:106-109 | an entry whose name starts with '.' contributes nothing |
| FileTreeScan.UnreadableFolderIsEmpty | src-tauri/src/commands/file_tree.rs:118-123 | an unreadable subfolder is kept, with an empty child list |
| FileTreeCommands.NameFor | src-tauri/src/commands/file_tree.rs:249-258 | the k-th candidate name is the prefix, then " k" for k > 0, then the suffix |
| FileTreeCommands.NameForInjective | src-tauri/src/commands/file_tree.rs:253-258 | different counters give different names, so each search step tries a new path |
| FileTreeCommands.FirstFreeUnique | src-tauri/src/commands/file_tree.rs:253-258 | the first free candidate is unique |
| FileTreeCommands.Disk.FirstFreeName | src-tauri/src/commands/file_tree.rs:249-258 | the loop stops at the first candidate whose path does not exist, and it always stops |
| FileTreeCommands.Disk.CreateNewNote | src-tauri/src/commands/file_tree.rs:239-272 | a parent that is not an existing directory is rejected; otherwise an empty file is written at the first free "Untitled" name and its node returned; a failed write changes nothing |
| FileTreeCommands.Disk.DuplicateFile | src-tauri/src/commands/file_tree.rs:307-352 | a source that is not an existing file, or has no parent or stem, is rejected; otherwise its content is copied to the first free "<stem> copy" name beside it, the extension kept when there is one |
| FileTreeCommands.Disk.ReadFile | src-tauri/src/commands/file_tree.rs:173-201 | succeeds exactly for an existing file whose read succeeds, with its content |
| FileTreeCommands.Disk.DeletePath | src-tauri/src/commands/file_tree.rs:276-303 | a missing path is rejected; a directory goes with everything below it, a file alone; a failed removal changes nothing |
| FileTreeCommands.FilesAfterDelete | src-tauri/src/commands/file_tree.rs:286-290 | exactly the files not removed remain, with their contents |
| FileTreeCommands.UntitledIsSupported | src-tauri/src/commands/file_tree.rs:249-256 | every "Untitled" name has a supported extension, so a new note is listed by the next scan |
| FileTreeCommands.DeleteMatchesSelectionRule | src-tauri/src/commands/file_tree.rs:286-287 | after deleting a directory, a file survives exactly when the frontend's path-prefix rule keeps it selected |
| FileTreeCommands.EventType | src-tauri/src/commands/file_tree.rs:396-401 | Create maps to "create", Remove to "delete", a name change to "rename", every other kind to nothing |
| FileTreeCommands.EventsFor | src-tauri/src/commands/file_tree.rs:403-425 | one event per affected path, in order, for a mapped kind; none otherwise |
| FileTreeView.ImageByExtension | src/components/file-tree.tsx:19-27 | for a dotted name only what follows the last dot counts, in any case |
| FileTreeView.ImageWithoutDot | src/components/file-tree.tsx:24-27 | a name without a dot is tested whole |
| FileTreeView.ConvertNode | src/components/file-tree.tsx:49-56 | the element has the node's id and name, is selectable, and has children exactly when the node is a folder with children |
| FileTreeView.ConvertToTreeElements | src/components/file-tree.tsx:48-57 | one element per node, in order, mirroring it at every depth |
| FileTreeView.Traverse | src/components/file-tree.tsx:63-70 | the loop sets every node of the subtree in depth-first order |
| FileTreeView.CreateNodeMap | src/components/file-tree.tsx:60-74 | the map is every node set in depth-first order, a later equal id winning |
| FileTreeView.NodeMapCoversTree | src/components/file-tree.tsx:60-74 | every node at every depth has its id in the map, and each id maps to a node of the tree with that id |
| FileTreeView.SetAllLastWins | src/components/file-tree.tsx:65 | a node whose id does not recur later is what its id maps to |
| FileTreeView.HandleSelect | src/components/file-tree.tsx:223-229 | a row selects its node exactly when it is in the map and is not a folder with children |
| FileTreeView.ClickSelectsFile | src/components/file-tree.tsx:225-229 | with unique ids, clicking a top-level file's row selects that file |
| FileTreeView.RenameTarget | src/components/file-tree.tsx:285-286 | the target ends in '/' and the new name |
| FileTreeView.RenameKeepsDirectory | src/components/file-tree.tsx:285-286 | renaming keeps the entry in its directory |
| FileTreeView.RenameField.Submit | src/components/file-tree.tsx:276-295 | a blank or unchanged name closes the field without a rename; otherwise the rename to the target is requested, and a failure restores the name and reopens the field |
| TreeView.Without | src/components/ui/file-tree.tsx:103 | exactly the other ids remain |
| TreeView.Toggle | src/components/ui/file-tree.tsx:101-106 | a present id is removed (every occurrence), an absent one appended at the end; other ids keep their membership |
| TreeView.ToggleTwice | src/components/ui/file-tree.tsx:100-107 | toggling an absent id twice restores the list |
| TreeView.ExpandableIdsSound | src/components/ui/file-tree.tsx:346-358 | every collected id is that of an expandable element reached through expandable ones |
| TreeView.ExpandableIdsComplete | src/components/ui/file-tree.tsx:346-358 | every expandable element reached through expandable ones is collected |
| TreeView.CollectExpandableIds | src/components/ui/file-tree.tsx:356 | the traversal collects the ids of `ExpandableIds`, in preorder |
| TreeView.CollectFrom | src/components/ui/file-tree.tsx:348-354 | one element contributes its id and then its children's when it is selectable with children, nothing otherwise |
| TreeView.TargetRoutesSound | src/components/ui/file-tree.tsx:112-141 | every list handed to the setter is a route to an element with the selected id through expandable elements, without the target when it is not selectable |
| TreeView.TargetRoutesComplete | src/components/ui/file-tree.tsx:112-141 | every such route that passes no earlier element with the id is handed to the setter |
| TreeView.IsSelected | src/components/ui/file-tree.tsx:310 | an explicit flag wins; otherwise selected exactly when the id is the selected one |
| TreeView.Tree.ExpandedItems | src/components/ui/file-tree.tsx:83 | the controlled list when given, the internal one otherwise |
| TreeView.Tree.SetExpandedItems | src/components/ui/file-tree.tsx:84-94 | in controlled mode the value, or [] when unset, goes to the callback and internal state is untouched; otherwise the value replaces internal state |
| TreeView.Tree.SelectItem | src/components/ui/file-tree.tsx:96-98 | the id becomes the selected one |
| TreeView.Tree.HandleExpand | src/components/ui/file-tree.tsx:100-107 | the toggled list of the currently expanded items is set |
| TreeView.Tree.ExpandAll | src/components/ui/file-tree.tsx:346-358 | the collected ids replace the expanded list |
| TreeView.Tree.CloseAll | src/components/ui/file-tree.tsx:360-362 | the expanded list becomes empty |
| TreeView.Tree.CollapseClick | src/components/ui/file-tree.tsx:375-379 | with something expanded everything closes; otherwise everything expandable opens |
| TreeView.Tree.ExpandSpecific | src/components/ui/file-tree.tsx:109-144 | nothing without elements or a selected id; otherwise each found route is appended to the list as it was when the call began, and set |
| CommandMenu.FilesOf | src/components/command-menu.tsx:75-77 | exactly the file nodes of the list, in order |
| CommandMenu.Flatten | src/components/command-menu.tsx:73-82 | what the recursive loop pushes is the file nodes of the depth-first enumeration of the forest, in that order |
| CommandMenu.AllFiles | src/components/command-menu.tsx:71-85 | the list is the file nodes of the tree in depth-first order; only file nodes are in it; an empty tree gives an empty list |
| CommandMenu.AllFilesPreorder | src/components/command-menu.tsx:73-82 | a root's own entry comes first, then the files below it, then those of the following roots |
| CommandMenu.AllFilesHasNestedFile | src/components/command-menu.tsx:78-80 | a file at any depth below a root is in the list |
| CommandMenu.AllFilesCount | src/components/command-menu.tsx:71-85 | the length of the list is the number of file nodes in the tree, counted along the tree |
| KeyboardShortcuts.MatchesShortcut | src/lib/keyboard-shortcuts.ts:26-38 | a key mismatch never matches; required modifiers must be held; a meta-or-ctrl shortcut refuses unrequested shift and alt; one without meta-or-ctrl refuses nothing extra |
| KeyboardShortcuts.Dispatch | src/lib/keyboard-shortcuts.ts:47-55 | at most one action runs, the first matching shortcut's, and the default is prevented exactly when one matches |
| PerformanceTracker.Round2 | src/services/performance-tracker.ts:56 | the rounded value is a whole number of hundredths within half a hundredth of the input |
| PerformanceTracker.Round2OfHundredths | src/services/performance-tracker.ts:56 | a value that is already a whole number of hundredths is returned unchanged |
| PerformanceTracker.Round2Idempotent | src/services/performance-tracker.ts:56 | rounding an already rounded duration changes nothing |
| PerformanceTracker.Pushed | src/services/performance-tracker.ts:80-83 | the new measurement is first, followed by the previous ones, the oldest dropped past ten entries |
| PerformanceTracker.Tracker.Start | src/services/performance-tracker.ts:19-36 | the marks restart with "start"; a fresh measurement with no step measured and no total is tracked for the file |
| PerformanceTracker.Tracker.MarkStart | src/services/performance-tracker.ts:41-43 | the step's start mark is recorded |
| PerformanceTracker.Tracker.MarkEnd | src/services/performance-tracker.ts:48-58 | nothing changes when not tracking or when the step never started; otherwise the step's duration is the rounded time since its start |
| PerformanceTracker.Tracker.SetStepDuration | src/services/performance-tracker.ts:63-66 | nothing changes when not tracking; otherwise the step's duration is set, rounded |
| PerformanceTracker.Tracker.Complete | src/services/performance-tracker.ts:71-97 | not tracking gives no result and changes nothing; otherwise the total is set, the measurement goes first in the bounded history and is the latest, and tracking stops with no marks |
| PerformanceTracker.Tracker.GetLatest | src/services/performance-tracker.ts:102-104 | the front of the history, absent when it is empty |
| PerformanceTracker.Tracker.GetHistory | src/services/performance-tracker.ts:109-111 | the snapshot, equal to the history and at most ten entries |
| PerformanceTracker.Tracker.IsTracking | src/services/performance-tracker.ts:132-134 | true exactly while a measurement is in progress |
| PerformanceTracker.Tracker.GetCurrentFileId | src/services/performance-tracker.ts:139-141 | the tracked file's id while tracking, absent otherwise |
| TemplateService.Templates.LoadTemplates | src/services/template-service.ts:19-35 | the stored map replaces the in-memory one; nothing stored or a failed read gives an empty map |
| TemplateService.Templates.SaveTemplates | src/services/template-service.ts:40-50 | the whole map is set in the store; it reaches disk exactly when the flush succeeds, and a failed flush is reported with the file left as it was |
| TemplateService.Templates.GetTemplate | src/services/template-service.ts:55-57 | the folder's template, absent when it has none |
| TemplateService.Templates.SetTemplate | src/services/template-service.ts:62-65 | the folder's template reads back as set, the other folders' are unchanged, and the whole map is saved |
| TemplateService.Templates.RemoveTemplate | src/services/template-service.ts:70-73 | the folder has no template, the other folders' are unchanged, and the whole map is saved |
| TemplateService.SetThenLoad | src/services/template-service.ts:19-65 | setting a template and loading back gives that template for the folder and the old ones elsewhere, whether or not the flush succeeded |
| SettingsService.Overlay | src/services/settings-service.ts:37 | every key of either record; a stored value wins over the default |
| SettingsService.LoadSettings | src/services/settings-service.ts:31-45 | a failed read is passed on; nothing stored gives the defaults; otherwise every default key is present and stored values win |
| SettingsService.UpdateSetting | src/services/settings-service.ts:52-85 | the record set in the store has only the key changed and every other key as it was, and it is set even when the flush fails; the call returns that record exactly when the flush succeeds |
| SettingsService.LoadOfSavedDefaults | src/services/settings-service.ts:31-45 | loading saved defaults gives the defaults |
| SettingsService.LoadAfterUpdate | src/services/settings-service.ts:31-85 | loading after an update returns the record it set, whether or not the flush succeeded, and that is the update's result after a successful flush, when the record holds every default key |

## Left out

- Concurrency and React scheduling are not modelled. Each operation runs to completion, and the state is read as it was when the operation started. `useCallback` closures over stale state are not modelled.
- The file watcher's lifecycle is not modelled: `start_watching`, `stop_watching`, the `Mutex<WatcherState>`, the 300 ms debounce and the `isSubscribed` guard. They are timer and callback plumbing; only the event-kind mapping and the emitted events are modelled.
- The tab-to-selection sync effects, the `isSyncingRef` flag and the 500 ms save timer in src/contexts/tabs-context.tsx are not modelled. They depend on effect scheduling and wall-clock delays. `SetActiveTab` returns the file it asks to select rather than calling into the file tree.
- The `notify` event stream, `app_handle.emit` and logging are not modelled. An emitted event is a returned value.
- src/services/file-tree-service.ts is not part of this model. It only forwards to the backend and rewraps errors; the frontend's calls take the backend's outcome as a parameter.
- `create_new_folder`, `rename_path` and `save_image_to_attachments` have no implementation in the Rust source, so they are not modelled. `write_file` is left out because it lies outside the workspace logic. The rename itself is the request `RenameField.Submit` returns.
- `create_new_note`, `delete_path` and `duplicate_file` are modelled from their bodies. src-tauri/src/lib.rs registers only `scan_directory`, `read_file`, `write_file`, `start_watching` and `stop_watching`.
- Context members that src/types/file-tree.ts:41-80 declares but the provider's `value` (src/contexts/file-tree-context.tsx:228-238) never supplies are not modelled: `stats`, `createNewFolder`, `duplicateFile`, `renameNode`, `renamingId`, `setRenamingId`, `expandedIds`, `toggleExpand`, `setExpandedIds` and `updateStats`. At run time each of them is `undefined`, which decides two modelled paths. src/components/file-tree.tsx:126-127 passes `expandedItems={expandedIds}` and `onExpandedItemsChange={setExpandedIds}`, both `undefined`, so the app's tree always runs the uncontrolled branch of `TreeView.Tree.ExpandedItems` and `TreeView.Tree.SetExpandedItems`; the controlled branch is modelled for the component on its own. src/components/file-tree.tsx:142 passes `onRename={renameNode}`, also `undefined`, so in the app calling it throws and every rename through `FileTreeView.RenameField.Submit` ends in its failed-rename branch (name restored, field reopened); the model keeps the rename's outcome as a parameter. Likewise `renamingId` is never equal to an element id, so the rename-mode effect at src/components/file-tree.tsx:204-221 never runs and is not modelled.
- src/contexts/settings-context.tsx, the editor, toolbars, dialogs, themes, updater and layout components are not modelled. They are UI composition over libraries outside this model.
- `FileTreeScan.FileName` follows Rust's `Path::file_name` on '/'-separated strings. Trailing separators and trailing "." components are skipped, as Rust's component iterator skips them, and a final ".." gives "". It does not model Rust's other normalisations: "." components in the middle of a path (which `FileTreeCommands.Parent` also sees), and Windows prefixes.
- `FileTreeScan.Listing` gives a directory's entries in `read_dir` order as a tree of values. Symbolic links and entries that change during the scan are not modelled. `path.is_dir()`/`path.is_file()` are the entry's kind, and anything else is `OtherEntry`.
- `Strings.ToLower` lower-cases ASCII letters only. It is used by the scan's name sort and by the image test. JavaScript's `toLowerCase` and Rust's `to_lowercase` also fold non-ASCII letters.
- `FileTreeScan.SortByName` compares lower-cased names by code point as sequences of `char`. Rust compares the UTF-8 bytes of `String`, which orders the same way for the characters involved.
- `PerformanceTracker.Round2`: durations are exact reals and `Math.round(x * 100) / 100` is computed exactly. Floating-point rounding error is not modelled.
- `PerformanceTracker.Tracker`: the listener sets and their notification (`subscribe`, `subscribeWithMetrics`) are left out, since they are callbacks. `performance.now()`, `Date.now()` and the random measurement id are parameters.
- `PerformanceTracker.Tracker.MarkStart` keys marks by the step's name as a string, as the source does. The other methods take the five steps as a datatype, so an unknown step name cannot be passed to them.
- `SettingsService.Value` covers the setting types of src/types/settings.ts: booleans and numbers, with text as a catch-all. JSON numbers are modelled as integers, which is all the `maxTabs` setting uses.
- `KeyboardShortcuts.Shortcut` models a missing optional flag (`metaOrCtrl`, `shift`, `alt`) as `false`, which is how the source's truthiness tests read it. The shortcut's description is not modelled. Its action is represented by its position in the list.
- `TabsContext.TabsProvider.LoadTabs`: the `catch` branch of `loadTabs` cannot be reached, because `loadVaultTabs` never throws. It is therefore not modelled.
- `FileTreeScan.NewNode`: the id hash is a parameter about which nothing is assumed. So `FileTreeScan.IdDeterminedByPath` states only that equal paths give equal ids.
- `FileTreeView.ClickSelectsFile` takes unique ids as a premise and is stated for top-level rows only.
- Failures are represented by an error string, not by the source's exact message text.
- `FileTreeCommands.Disk.DeletePath`: a failed removal is modelled as changing nothing. `remove_dir_all` can fail after it has already removed part of the directory tree; that partial outcome is not modelled.
- `VaultService.ExtractFolderName`: its own contract states only that the name holds no separator. Its value is pinned by the lemmas `VaultService.FolderNameIsLastSegment` (the text after the last '/' of the normalised path), `VaultService.FolderNameIgnoresTrailingSeparator` and `VaultService.NormalizedPath`'s contract. Those facts are kept out of the function's contract so that callers such as `VaultService.ChooseAndAddVault` stay cheap to verify.
- `VaultContext.VaultProvider`: its operations require distinct vault ids and at most one default vault (`Valid`). The source never checks this on the data it loads from vaults.json, so a hand-edited file that breaks it is outside the model.
- `TabsContext.TabsProvider.CurrentVaultChanged` requires every stored vault's tabs to have distinct ids and an active tab among them (`ValidStore`). The source does not check the data it reads from tabs.json; the model takes it to be what the app itself wrote.
- `TabsService.SaveVaultTabs`, `TemplateService.Templates.SaveTemplates` and `SettingsService.UpdateSetting` take the store's in-memory `set` to succeed. Only a read of the store (where the operation makes one) and the flush to disk can fail.
- `FileTreeCommands.Disk` keys entries by canonical path strings, and its commands look their arguments up as exact keys. Arguments are taken to be canonical too: no trailing or repeated separators and no "." components, which is what the frontend passes (scan output and the vault folder). Rust's `Path::exists` and `is_dir` would also accept "notes/" for a directory "notes"; such arguments are not modelled.
