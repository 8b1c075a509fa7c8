/**
 * Vault list operations (src/services/vault-service.ts). Every operation takes the current
 * list and returns the list it saved to `vaults.json`; `saveOk` says whether that save
 * succeeded, the folder picker's answer and the fresh UUID are parameters.
 */
module VaultService {
  import opened Wrappers
  import opened Strings
  import opened Sequences

  // Error messages, as the source words them.
  const CancelledMessage: string := "Vault selection cancelled: A folder must be selected"
  const SaveFailedMessage: string := "Failed to save vaults"
  const NotFoundMessage: string := "Vault with id not found"

  datatype Vault = Vault(id: string, path: string, name: string, isDefault: bool)

  /** A vault added by `chooseAndAddVault`, with the whole list it saved. */
  datatype Added = Added(vault: Vault, vaults: seq<Vault>)

  function VaultIds(vs: seq<Vault>): set<string> {
    set v | v in vs :: v.id
  }

  predicate UniqueVaultIds(vs: seq<Vault>) {
    forall i, j :: 0 <= i < j < |vs| ==> vs[i].id != vs[j].id
  }

  /** How many vaults are flagged default. */
  function DefaultCount(vs: seq<Vault>): nat {
    if vs == [] then 0 else (if vs[0].isDefault then 1 else 0) + DefaultCount(vs[1..])
  }

  /** How many vaults carry the id. */
  function IdCount(vs: seq<Vault>, id: string): nat {
    if vs == [] then 0 else (if vs[0].id == id then 1 else 0) + IdCount(vs[1..], id)
  }

  // ---------------------------------------------------------------------------------------
  // Persistence and the folder-name helper
  // ---------------------------------------------------------------------------------------

  /**
   * `loadVaults`: the stored list, or an empty list when nothing is stored or the read
   * fails (`stored` is the read's outcome).
   */
  function LoadVaults(stored: Result<Option<seq<Vault>>>): (r: seq<Vault>)
    ensures stored.Ok? && stored.value.Some? ==> r == stored.value.value
    ensures !(stored.Ok? && stored.value.Some?) ==> r == []
  {
    if stored.Ok? && stored.value.Some? then stored.value.value else []
  }

  /** `path.replace(/\\/g, '/')` followed by dropping one trailing '/'. */
  function NormalizedPath(path: string): (r: string)
    ensures |r| == |path| || (|r| == |path| - 1 && path[|r|] in "/\\")
    ensures |r| == |path| - 1 <==> |path| > 0 && path[|path| - 1] in "/\\"
    ensures '\\' !in r
    ensures forall i :: 0 <= i < |r| ==> r[i] == if path[i] == '\\' then '/' else path[i]
  {
    var n := ReplaceChar(path, '\\', '/');
    if |n| > 0 && n[|n| - 1] == '/' then n[..|n| - 1] else n
  }

  /**
   * `extractFolderName`: the last '/'-separated segment of the normalised path; Unix and
   * Windows separators are treated alike and one trailing separator is ignored.
   */
  function ExtractFolderName(path: string): (r: string)
    ensures '/' !in r && '\\' !in r
  {
    var t := NormalizedPath(path);
    AfterLastLacks(t, '/', '\\');
    AfterLast(t, '/')
  }

  /** The folder name is what follows the last separator of the normalised path, or all of it. */
  lemma {:induction false} FolderNameIsLastSegment(path: string)
    ensures var t := NormalizedPath(path);
            var r := ExtractFolderName(path);
            |r| <= |t| && r == t[|t| - |r|..] && (|r| < |t| ==> t[|t| - |r| - 1] == '/')
  {
    var t := NormalizedPath(path);
    assert ExtractFolderName(path) == AfterLast(t, '/');
  }

  /** A path without separators names itself. */
  lemma {:induction false} FolderNameOfPlainName(path: string)
    requires '/' !in path && '\\' !in path
    ensures ExtractFolderName(path) == path
  {
    var t := NormalizedPath(path);
    assert t == path;
    var r := ExtractFolderName(path);
    FolderNameIsLastSegment(path);
    if |r| < |t| {
      assert false;
    }
  }

  /** One trailing separator, Unix or Windows, does not change the folder name. */
  lemma {:induction false} FolderNameIgnoresTrailingSeparator(path: string, c: char)
    requires c in "/\\"
    requires path == [] || path[|path| - 1] !in "/\\"
    ensures ExtractFolderName(path + [c]) == ExtractFolderName(path)
  {
    var p := path + [c];
    var t, u := NormalizedPath(p), NormalizedPath(path);
    assert |t| == |path| == |u|;
    forall i | 0 <= i < |t| ensures t[i] == u[i] {
      assert p[i] == path[i];
    }
    assert t == u;
  }

  /** A folder name is read off a Windows path with a trailing separator. */
  lemma {:induction false} FolderNameOfWindowsPath()
    ensures ExtractFolderName("C:\\notes\\work\\") == "work"
  {
    var p := "C:\\notes\\work\\";
    var t := NormalizedPath(p);
    assert |t| == 13;
    assert t == "C:/notes/work";
    AfterLastIsSuffix(t, '/', "work");
  }

  /** The root path "/" gives the empty name. */
  lemma {:induction false} FolderNameOfRoot()
    ensures ExtractFolderName("/") == ""
  {
    assert ReplaceChar("/", '\\', '/') == "/";
    assert NormalizedPath("/") == "";
  }

  // ---------------------------------------------------------------------------------------
  // List transformations
  // ---------------------------------------------------------------------------------------

  /**
   * `chooseAndAddVault`: no folder (`None` or the empty string) is an error and saves
   * nothing; otherwise the new vault, default exactly when no vault existed yet and named
   * after its folder, is appended and the list saved.
   */
  function ChooseAndAddVault(existing: seq<Vault>, folder: Option<string>, newId: string,
                             saveOk: bool): (r: Result<Added>)
    ensures r.Ok? <==> folder.Some? && folder.value != "" && saveOk
    ensures r.Ok? ==> r.value.vault == Vault(newId, folder.value, ExtractFolderName(folder.value), existing == [])
    ensures r.Ok? ==> r.value.vaults == existing + [r.value.vault]
  {
    if folder.None? || folder.value == "" then Err(CancelledMessage)
    else
      var vault := Vault(newId, folder.value, ExtractFolderName(folder.value), |existing| == 0);
      if saveOk then Ok(Added(vault, existing + [vault])) else Err(SaveFailedMessage)
  }

  /** `existingVaults.map(v => ({...v, isDefault: v.id === id}))`. */
  function MarkDefault(vs: seq<Vault>, id: string): (r: seq<Vault>)
    ensures |r| == |vs|
    ensures forall i :: 0 <= i < |vs| ==>
              r[i].isDefault == (vs[i].id == id)
              && r[i].id == vs[i].id && r[i].path == vs[i].path && r[i].name == vs[i].name
  {
    if vs == [] then [] else [vs[0].(isDefault := vs[0].id == id)] + MarkDefault(vs[1..], id)
  }

  /** `setDefaultVault`: an unknown id is an error; otherwise exactly that id's entries become default. */
  function SetDefaultVault(id: string, existing: seq<Vault>, saveOk: bool): (r: Result<seq<Vault>>)
    ensures r.Ok? <==> id in VaultIds(existing) && saveOk
    ensures r.Ok? ==> r.value == MarkDefault(existing, id)
  {
    if id !in VaultIds(existing) then Err(NotFoundMessage)
    else if saveOk then Ok(MarkDefault(existing, id))
    else Err(SaveFailedMessage)
  }

  /** `existingVaults.filter(v => v.id !== id)`. */
  function WithoutVault(vs: seq<Vault>, id: string): (r: seq<Vault>)
    ensures |r| <= |vs|
    ensures forall v :: v in r <==> v in vs && v.id != id
  {
    if vs == [] then [] else (if vs[0].id == id then [] else [vs[0]]) + WithoutVault(vs[1..], id)
  }

  /** `updatedVaults.map((v, index) => ({...v, isDefault: index === 0}))`. */
  function MarkFirstDefault(vs: seq<Vault>): (r: seq<Vault>)
    ensures |r| == |vs|
    ensures forall i :: 0 <= i < |vs| ==>
              r[i].isDefault == (i == 0)
              && r[i].id == vs[i].id && r[i].path == vs[i].path && r[i].name == vs[i].name
  {
    seq(|vs|, i requires 0 <= i < |vs| => vs[i].(isDefault := i == 0))
  }

  /** The first vault with the id (`existingVaults.find`). */
  function FindVault(vs: seq<Vault>, id: string): (r: Option<Vault>)
    ensures r.Some? <==> id in VaultIds(vs)
    ensures r.Some? ==> r.value in vs && r.value.id == id
  {
    if vs == [] then None
    else if vs[0].id == id then Some(vs[0])
    else
      assert VaultIds(vs) == {vs[0].id} + VaultIds(vs[1..]) by {
        assert forall v :: v in vs <==> v == vs[0] || v in vs[1..];
      }
      FindVault(vs[1..], id)
  }

  /**
   * `removeVault`: an unknown id is an error; otherwise the vault is dropped and, when it
   * was the default and others remain, the first remaining vault becomes the only default.
   */
  function RemoveVault(id: string, existing: seq<Vault>, saveOk: bool): (r: Result<seq<Vault>>)
    ensures r.Ok? <==> id in VaultIds(existing) && saveOk
    ensures r.Ok? && FindVault(existing, id).value.isDefault && WithoutVault(existing, id) != [] ==>
              r.value == MarkFirstDefault(WithoutVault(existing, id))
    ensures r.Ok? && !(FindVault(existing, id).value.isDefault && WithoutVault(existing, id) != []) ==>
              r.value == WithoutVault(existing, id)
  {
    match FindVault(existing, id)
    case None => Err(NotFoundMessage)
    case Some(removed) =>
      var updated := WithoutVault(existing, id);
      var updated' := if removed.isDefault && |updated| > 0 then MarkFirstDefault(updated) else updated;
      if saveOk then Ok(updated') else Err(SaveFailedMessage)
  }

  /** `existingVaults.map(v => v.id === id ? {...v, name} : v)`. */
  function Rename(vs: seq<Vault>, id: string, name: string): (r: seq<Vault>)
    ensures |r| == |vs|
    ensures forall i :: 0 <= i < |vs| ==> r[i] == if vs[i].id == id then vs[i].(name := name) else vs[i]
  {
    if vs == [] then [] else [if vs[0].id == id then vs[0].(name := name) else vs[0]] + Rename(vs[1..], id, name)
  }

  /** `updateVaultName`: an unknown id is an error; otherwise only that vault's name changes, trimmed. */
  function UpdateVaultName(id: string, newName: string, existing: seq<Vault>, saveOk: bool): (r: Result<seq<Vault>>)
    ensures r.Ok? <==> id in VaultIds(existing) && saveOk
    ensures r.Ok? ==> r.value == Rename(existing, id, Trim(newName))
  {
    if id !in VaultIds(existing) then Err(NotFoundMessage)
    else if saveOk then Ok(Rename(existing, id, Trim(newName)))
    else Err(SaveFailedMessage)
  }

  // ---------------------------------------------------------------------------------------
  // Properties
  // ---------------------------------------------------------------------------------------

  lemma {:induction false} DefaultCountAppend(vs: seq<Vault>, v: Vault)
    ensures DefaultCount(vs + [v]) == DefaultCount(vs) + (if v.isDefault then 1 else 0)
  {
    if vs != [] {
      assert (vs + [v])[1..] == vs[1..] + [v];
      DefaultCountAppend(vs[1..], v);
    }
  }

  lemma {:induction false} MarkDefaultCount(vs: seq<Vault>, id: string)
    ensures DefaultCount(MarkDefault(vs, id)) == IdCount(vs, id)
  {
    if vs != [] {
      MarkDefaultCount(vs[1..], id);
    }
  }

  lemma {:induction false} IdCountAbsent(vs: seq<Vault>, id: string)
    requires id !in VaultIds(vs)
    ensures IdCount(vs, id) == 0
  {
    if vs != [] {
      assert vs[0] in vs;
      assert id !in VaultIds(vs[1..]) by {
        forall v | v in vs[1..] ensures v in vs { }
      }
      IdCountAbsent(vs[1..], id);
    }
  }

  lemma {:induction false} IdCountUnique(vs: seq<Vault>, id: string)
    requires UniqueVaultIds(vs) && id in VaultIds(vs)
    ensures IdCount(vs, id) == 1
  {
    assert vs != [];
    var rest := vs[1..];
    assert UniqueVaultIds(rest) by {
      forall i, j | 0 <= i < j < |rest| ensures rest[i].id != rest[j].id {
        assert rest[i] == vs[i + 1] && rest[j] == vs[j + 1];
      }
    }
    if vs[0].id == id {
      assert id !in VaultIds(rest) by {
        forall k | 0 <= k < |rest| ensures rest[k].id != id {
          assert rest[k] == vs[k + 1];
        }
      }
      IdCountAbsent(rest, id);
    } else {
      var v :| v in vs && v.id == id;
      assert v in rest;
      IdCountUnique(rest, id);
    }
  }

  lemma {:induction false} WithoutVaultDefaultCount(vs: seq<Vault>, id: string)
    ensures DefaultCount(WithoutVault(vs, id)) <= DefaultCount(vs)
  {
    if vs != [] {
      WithoutVaultDefaultCount(vs[1..], id);
      var rest := WithoutVault(vs[1..], id);
      if vs[0].id != id {
        assert WithoutVault(vs, id) == [vs[0]] + rest;
        assert ([vs[0]] + rest)[1..] == rest;
        assert DefaultCount([vs[0]] + rest) == (if vs[0].isDefault then 1 else 0) + DefaultCount(rest);
      } else {
        assert WithoutVault(vs, id) == rest;
      }
    }
  }

  lemma {:induction false} MarkFirstDefaultCount(vs: seq<Vault>)
    requires vs != []
    ensures DefaultCount(MarkFirstDefault(vs)) == 1
  {
    var r := MarkFirstDefault(vs);
    NoDefaults(r[1..]);
  }

  lemma {:induction false} NoDefaults(vs: seq<Vault>)
    requires forall i :: 0 <= i < |vs| ==> !vs[i].isDefault
    ensures DefaultCount(vs) == 0
  {
    if vs != [] {
      NoDefaults(vs[1..]);
    }
  }

  /** Adding keeps at most one default: the new vault is default only in an empty list. */
  lemma {:induction false} AddKeepsAtMostOneDefault(existing: seq<Vault>, folder: Option<string>, newId: string, saveOk: bool)
    requires DefaultCount(existing) <= 1
    ensures var r := ChooseAndAddVault(existing, folder, newId, saveOk);
            r.Ok? ==> DefaultCount(r.value.vaults) <= 1
  {
    var r := ChooseAndAddVault(existing, folder, newId, saveOk);
    if r.Ok? {
      DefaultCountAppend(existing, r.value.vault);
    }
  }

  /** Adding the first vault makes it the one default. */
  lemma {:induction false} AddFirstIsDefault(folder: Option<string>, newId: string, saveOk: bool)
    ensures var r := ChooseAndAddVault([], folder, newId, saveOk);
            r.Ok? ==> DefaultCount(r.value.vaults) == 1 && r.value.vault.isDefault
  {
  }

  /** With distinct ids, setting a default leaves exactly one default vault, the chosen one. */
  lemma {:induction false} SetDefaultExactlyOne(id: string, existing: seq<Vault>, saveOk: bool)
    requires UniqueVaultIds(existing)
    ensures var r := SetDefaultVault(id, existing, saveOk);
            r.Ok? ==> DefaultCount(r.value) == 1
                      && forall i :: 0 <= i < |r.value| ==> (r.value[i].isDefault <==> r.value[i].id == id)
  {
    if SetDefaultVault(id, existing, saveOk).Ok? {
      MarkDefaultCount(existing, id);
      IdCountUnique(existing, id);
    }
  }

  /**
   * Removing keeps at most one default, and when the removed vault was the default and
   * others remain, there is again exactly one.
   */
  lemma {:induction false} RemoveKeepsAtMostOneDefault(id: string, existing: seq<Vault>, saveOk: bool)
    requires DefaultCount(existing) <= 1
    ensures var r := RemoveVault(id, existing, saveOk);
            r.Ok? ==> DefaultCount(r.value) <= 1
    ensures var r := RemoveVault(id, existing, saveOk);
            r.Ok? && FindVault(existing, id).value.isDefault && r.value != [] ==> DefaultCount(r.value) == 1
  {
    var r := RemoveVault(id, existing, saveOk);
    if r.Ok? {
      var updated := WithoutVault(existing, id);
      WithoutVaultDefaultCount(existing, id);
      if FindVault(existing, id).value.isDefault && updated != [] {
        MarkFirstDefaultCount(updated);
      }
    }
  }

  /** Removing a vault other than the default leaves every flag as it was. */
  lemma {:induction false} RemoveNonDefaultKeepsFlags(id: string, existing: seq<Vault>, saveOk: bool)
    requires RemoveVault(id, existing, saveOk).Ok? && !FindVault(existing, id).value.isDefault
    ensures RemoveVault(id, existing, saveOk).value == WithoutVault(existing, id)
    ensures forall v :: v in RemoveVault(id, existing, saveOk).value <==> v in existing && v.id != id
  {
  }

  /** Two lists with the same ids position by position have the same id set. */
  lemma {:induction false} SameIdsByIndex(a: seq<Vault>, b: seq<Vault>)
    requires |a| == |b| && forall i :: 0 <= i < |a| ==> a[i].id == b[i].id
    ensures VaultIds(a) == VaultIds(b)
  {
    forall x | x in VaultIds(a) ensures x in VaultIds(b) {
      var i :| 0 <= i < |a| && a[i].id == x;
      assert b[i] in b;
    }
    forall x | x in VaultIds(b) ensures x in VaultIds(a) {
      var i :| 0 <= i < |b| && b[i].id == x;
      assert a[i] in a;
    }
  }

  /** Renaming and setting a default keep ids; removing drops exactly the id. */
  lemma {:induction false} OperationsKeepIds(id: string, name: string, existing: seq<Vault>)
    ensures VaultIds(MarkDefault(existing, id)) == VaultIds(existing)
    ensures VaultIds(Rename(existing, id, name)) == VaultIds(existing)
    ensures VaultIds(WithoutVault(existing, id)) == VaultIds(existing) - {id}
    ensures VaultIds(MarkFirstDefault(existing)) == VaultIds(existing)
  {
    SameIdsByIndex(MarkDefault(existing, id), existing);
    SameIdsByIndex(Rename(existing, id, name), existing);
    MarkFirstDefaultIds(existing);
    WithoutVaultIds(existing, id);
  }

  /** Marking the first vault default keeps the ids. */
  lemma {:induction false} MarkFirstDefaultIds(vs: seq<Vault>)
    ensures VaultIds(MarkFirstDefault(vs)) == VaultIds(vs)
  {
    SameIdsByIndex(MarkFirstDefault(vs), vs);
  }

  /** Removing drops exactly the removed id. */
  lemma {:induction false} WithoutVaultIds(vs: seq<Vault>, id: string)
    ensures VaultIds(WithoutVault(vs, id)) == VaultIds(vs) - {id}
  {
    var w := WithoutVault(vs, id);
    forall x | x in VaultIds(vs) - {id} ensures x in VaultIds(w) {
      var v :| v in vs && v.id == x;
      assert v in w;
    }
  }

  /** The filter keeps the remaining vaults in their original order. */
  lemma {:induction false} WithoutVaultKeepsOrder(vs: seq<Vault>, id: string)
    ensures IsSubsequence(WithoutVault(vs, id), vs)
  {
    if vs != [] {
      WithoutVaultKeepsOrder(vs[1..], id);
      var rest := WithoutVault(vs[1..], id);
      var r := WithoutVault(vs, id);
      if vs[0].id != id {
        assert r == [vs[0]] + rest;
        assert r[0] == vs[0] && r[1..] == rest;
      } else {
        assert r == rest;
      }
    }
  }

  /** The first vault left after the filter is the first vault with another id. */
  lemma {:induction false} WithoutVaultHead(vs: seq<Vault>, id: string, j: nat)
    requires j < |vs| && vs[j].id != id
    requires forall k :: 0 <= k < j ==> vs[k].id == id
    ensures WithoutVault(vs, id) != [] && WithoutVault(vs, id)[0] == vs[j]
    decreases j
  {
    if j == 0 {
      assert WithoutVault(vs, id) == [vs[0]] + WithoutVault(vs[1..], id);
    } else {
      assert vs[0].id == id;
      assert WithoutVault(vs, id) == WithoutVault(vs[1..], id);
      forall k | 0 <= k < j - 1 ensures vs[1..][k].id == id {
        assert vs[1..][k] == vs[k + 1];
      }
      WithoutVaultHead(vs[1..], id, j - 1);
    }
  }

  /**
   * Removing the default vault when others remain makes the first remaining vault, in the
   * stored order, the only default.
   */
  lemma {:induction false} RemoveDefaultPromotesFirstOther(id: string, existing: seq<Vault>, j: nat)
    requires j < |existing| && existing[j].id != id
    requires forall k :: 0 <= k < j ==> existing[k].id == id
    requires id in VaultIds(existing) && FindVault(existing, id).value.isDefault
    ensures var r := RemoveVault(id, existing, true);
            r.Ok? && r.value[0] == existing[j].(isDefault := true)
            && forall i :: 0 < i < |r.value| ==> !r.value[i].isDefault
  {
    WithoutVaultHead(existing, id, j);
  }

  /** Dropping a vault keeps ids distinct. */
  lemma {:induction false} WithoutVaultUnique(vs: seq<Vault>, id: string)
    requires UniqueVaultIds(vs)
    ensures UniqueVaultIds(WithoutVault(vs, id))
  {
    if vs != [] {
      UniqueVaultIdsTail(vs);
      WithoutVaultUnique(vs[1..], id);
      var w := WithoutVault(vs[1..], id);
      if vs[0].id != id {
        assert WithoutVault(vs, id) == [vs[0]] + w;
        assert vs[0].id !in VaultIds(w);
        UniqueVaultIdsCons(vs[0], w);
      } else {
        assert WithoutVault(vs, id) == w;
      }
    }
  }

  /** With distinct ids, the head's id does not occur in the tail, whose ids are distinct too. */
  lemma {:induction false} UniqueVaultIdsTail(vs: seq<Vault>)
    requires vs != [] && UniqueVaultIds(vs)
    ensures UniqueVaultIds(vs[1..]) && vs[0].id !in VaultIds(vs[1..])
  {
    var rest := vs[1..];
    forall i, j | 0 <= i < j < |rest| ensures rest[i].id != rest[j].id {
      assert rest[i] == vs[i + 1] && rest[j] == vs[j + 1];
    }
    forall j | 0 <= j < |rest| ensures rest[j].id != vs[0].id {
      assert rest[j] == vs[j + 1];
    }
  }

  /** A vault whose id is new keeps ids distinct when put in front. */
  lemma {:induction false} UniqueVaultIdsCons(v: Vault, vs: seq<Vault>)
    requires UniqueVaultIds(vs) && v.id !in VaultIds(vs)
    ensures UniqueVaultIds([v] + vs)
  {
    var t := [v] + vs;
    forall i, j | 0 <= i < j < |t| ensures t[i].id != t[j].id {
      assert t[j] == vs[j - 1] && vs[j - 1] in vs;
      if i > 0 { assert t[i] == vs[i - 1]; }
    }
  }

  lemma {:induction false} TwoDefaults(vs: seq<Vault>, i: nat, j: nat)
    requires i < j < |vs| && vs[i].isDefault && vs[j].isDefault
    ensures DefaultCount(vs) >= 2
  {
    if i == 0 {
      OneDefault(vs[1..], j - 1);
    } else {
      TwoDefaults(vs[1..], i - 1, j - 1);
    }
  }

  lemma {:induction false} OneDefault(vs: seq<Vault>, i: nat)
    requires i < |vs| && vs[i].isDefault
    ensures DefaultCount(vs) >= 1
  {
    if i > 0 {
      OneDefault(vs[1..], i - 1);
    }
  }

  /** The first default vault: what `vaults.find(v => v.isDefault)` yields. */
  function FirstDefault(vs: seq<Vault>): (r: Option<nat>)
    ensures r.Some? ==> r.value < |vs| && vs[r.value].isDefault
    ensures r.Some? ==> forall j :: 0 <= j < r.value ==> !vs[j].isDefault
    ensures r.None? <==> DefaultCount(vs) == 0
  {
    if vs == [] then None
    else if vs[0].isDefault then Some(0)
    else match FirstDefault(vs[1..])
      case None => None
      case Some(k) => Some(k + 1)
  }

  /** With at most one default, the first default is the only one. */
  lemma {:induction false} FirstDefaultIsOnlyDefault(vs: seq<Vault>)
    requires DefaultCount(vs) <= 1
    ensures FirstDefault(vs).Some? ==>
              forall j :: 0 <= j < |vs| && vs[j].isDefault ==> j == FirstDefault(vs).value
  {
    var f := FirstDefault(vs);
    if f.Some? {
      forall j | 0 <= j < |vs| && vs[j].isDefault ensures j == f.value {
        if j < f.value {
        } else if j > f.value {
          TwoDefaults(vs, f.value, j);
        }
      }
    }
  }
}
