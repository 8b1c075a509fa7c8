/**
 * The vault provider (src/contexts/vault-context.tsx): the vault list, the derived current
 * vault, and the success and failure paths of adding, choosing the default and removing.
 * A rejected promise that the provider rethrows is an `Err` result; `saved` is the list in
 * `vaults.json`.
 */
module VaultContext {
  import opened Wrappers
  import opened VaultService

  /** The provider's invariant: distinct ids and at most one default vault. */
  predicate ValidVaults(vs: seq<Vault>) {
    UniqueVaultIds(vs) && DefaultCount(vs) <= 1
  }

  class VaultProvider {
    var vaults: seq<Vault>
    var isLoading: bool
    var error: Option<string>
    var saved: Option<seq<Vault>>

    ghost predicate Valid()
      reads this
    {
      ValidVaults(vaults)
    }

    /** `currentVault`: the first default vault, if any. */
    function CurrentVault(): (r: Option<Vault>)
      reads this
      ensures r.Some? <==> DefaultCount(vaults) > 0
      ensures r.Some? ==> r.value in vaults && r.value.isDefault
      ensures r.Some? ==> exists i :: 0 <= i < |vaults| && vaults[i] == r.value
                                      && forall j :: 0 <= j < i ==> !vaults[j].isDefault
    {
      match FirstDefault(vaults)
      case None => None
      case Some(i) => Some(vaults[i])
    }

    constructor (saved: Option<seq<Vault>>)
      ensures Valid() && vaults == [] && isLoading && error == None && this.saved == saved
    {
      vaults := [];
      isLoading := true;
      error := None;
      this.saved := saved;
    }

    /** The load on mount: the stored list (or none when the read fails), loading finished. */
    method Load(readOk: bool)
      modifies this`vaults, this`isLoading, this`error
      ensures vaults == LoadVaults(if readOk then Ok(saved) else Err("read failed"))
      ensures !readOk || saved.None? ==> vaults == []
      ensures !isLoading && error == None
    {
      isLoading := true;
      error := None;
      vaults := LoadVaults(if readOk then Ok(saved) else Err("read failed"));
      isLoading := false;
    }

    /**
     * `addVault`: on success the new vault is appended, saved and returned; on a cancelled
     * picker or a failed save the error is recorded, `vaults` is unchanged and nothing is
     * returned.
     */
    method AddVault(folder: Option<string>, newId: string, saveOk: bool) returns (added: Option<Vault>)
      requires Valid()
      modifies this`vaults, this`isLoading, this`error, this`saved
      ensures var r := ChooseAndAddVault(old(vaults), folder, newId, saveOk);
              (r.Ok? ==> added == Some(r.value.vault) && vaults == old(vaults) + [r.value.vault]
                         && saved == Some(vaults) && error == None)
              && (r.Err? ==>
                    added == None && vaults == old(vaults) && saved == old(saved)
                    && error == Some(r.error))
      ensures newId !in old(VaultIds(vaults)) ==> Valid()
      ensures old(vaults) == [] && added.Some? ==> CurrentVault() == added
      ensures !isLoading
    {
      var r := ChooseAndAddVault(vaults, folder, newId, saveOk);
      isLoading := true;
      error := None;
      if r.Ok? {
        var v := r.value.vault;
        AddKeepsAtMostOneDefault(vaults, folder, newId, saveOk);
        if newId !in VaultIds(vaults) {
          AppendFreshVault(vaults, v);
        }
        if vaults == [] {
          assert FirstDefault([v]) == Some(0);
        }
        vaults := vaults + [v];
        saved := Some(vaults);
        added := Some(v);
      } else {
        error := Some(r.error);
        added := None;
      }
      isLoading := false;
    }

    /**
     * `setDefaultVault`: on success the list becomes the service's result, in which the
     * chosen vault is the current one; on failure the error is recorded and rethrown.
     */
    method SetDefaultVault(id: string, saveOk: bool) returns (outcome: Result<Unit>)
      requires Valid()
      modifies this`vaults, this`isLoading, this`error, this`saved
      ensures Valid() && !isLoading
      ensures var r := VaultService.SetDefaultVault(id, old(vaults), saveOk);
              (r.Ok? ==> outcome.Ok? && vaults == r.value && saved == Some(vaults) && error == None)
              && (r.Err? ==> outcome == Err(r.error) && vaults == old(vaults) && saved == old(saved)
                             && error == Some(r.error))
      ensures outcome.Ok? ==> CurrentVault().Some? && CurrentVault().value.id == id
    {
      isLoading := true;
      error := None;
      var r := VaultService.SetDefaultVault(id, vaults, saveOk);
      if r.Ok? {
        SetDefaultKeepsValid(id, vaults, saveOk);
        vaults := r.value;
        saved := Some(vaults);
        outcome := Ok(Unit);
      } else {
        error := Some(r.error);
        outcome := Err(r.error);
      }
      isLoading := false;
    }

    /**
     * `removeVault`: on success the list becomes the service's result; on failure the
     * error is recorded and rethrown and the list is unchanged.
     */
    method RemoveVault(id: string, saveOk: bool) returns (outcome: Result<Unit>)
      requires Valid()
      modifies this`vaults, this`isLoading, this`error, this`saved
      ensures Valid() && !isLoading
      ensures var r := VaultService.RemoveVault(id, old(vaults), saveOk);
              (r.Ok? ==> outcome.Ok? && vaults == r.value && saved == Some(vaults) && error == None)
              && (r.Err? ==> outcome == Err(r.error) && vaults == old(vaults) && saved == old(saved)
                             && error == Some(r.error))
      ensures outcome.Ok? ==> id !in VaultIds(vaults)
      ensures outcome.Ok? && old(CurrentVault()).Some? && old(CurrentVault()).value.id == id && vaults != [] ==>
                CurrentVault() == Some(vaults[0])
      ensures outcome.Ok? && !(old(CurrentVault()).Some? && old(CurrentVault()).value.id == id) ==>
                CurrentVault() == old(CurrentVault())
    {
      isLoading := true;
      error := None;
      var r := VaultService.RemoveVault(id, vaults, saveOk);
      if r.Ok? {
        RemoveKeepsValid(id, vaults, saveOk);
        vaults := r.value;
        saved := Some(vaults);
        outcome := Ok(Unit);
      } else {
        error := Some(r.error);
        outcome := Err(r.error);
      }
      isLoading := false;
    }
  }

  /** Appending a vault with a fresh id keeps ids distinct. */
  lemma {:induction false} AppendFreshVault(vs: seq<Vault>, v: Vault)
    requires UniqueVaultIds(vs) && v.id !in VaultIds(vs)
    ensures UniqueVaultIds(vs + [v])
  {
    var s := vs + [v];
    forall i, j | 0 <= i < j < |s| ensures s[i].id != s[j].id {
      if j == |vs| {
        assert s[i] in vs;
      }
    }
  }

  /** A list with the same ids, position by position, as a list with distinct ids has distinct ids. */
  lemma {:induction false} SameIdsKeepUnique(a: seq<Vault>, b: seq<Vault>)
    requires UniqueVaultIds(a) && |a| == |b| && forall i :: 0 <= i < |a| ==> a[i].id == b[i].id
    ensures UniqueVaultIds(b)
  {
  }

  /** With at most one default, the current vault is the only default one. */
  lemma {:induction false} CurrentIsOnlyDefault(vs: seq<Vault>)
    requires ValidVaults(vs)
    ensures FirstDefault(vs).Some? ==>
              forall v :: v in vs && v.isDefault ==> v == vs[FirstDefault(vs).value]
  {
    FirstDefaultIsOnlyDefault(vs);
  }

  /** Choosing a default keeps the invariant and makes the chosen vault the current one. */
  lemma {:induction false} SetDefaultKeepsValid(id: string, vs: seq<Vault>, saveOk: bool)
    requires ValidVaults(vs) && VaultService.SetDefaultVault(id, vs, saveOk).Ok?
    ensures var r := VaultService.SetDefaultVault(id, vs, saveOk).value;
            ValidVaults(r) && FirstDefault(r).Some? && r[FirstDefault(r).value].id == id
  {
    var r := VaultService.SetDefaultVault(id, vs, saveOk).value;
    SetDefaultExactlyOne(id, vs, saveOk);
    SameIdsKeepUnique(vs, r);
  }

  /**
   * Removing keeps the invariant and the id is gone; when the current vault is removed and
   * others remain, the first remaining vault becomes current, otherwise the current vault
   * stays.
   */
  lemma {:induction false} RemoveKeepsValid(id: string, vs: seq<Vault>, saveOk: bool)
    requires ValidVaults(vs) && VaultService.RemoveVault(id, vs, saveOk).Ok?
    ensures var r := VaultService.RemoveVault(id, vs, saveOk).value;
            ValidVaults(r) && id !in VaultIds(r)
    ensures var r := VaultService.RemoveVault(id, vs, saveOk).value;
            var c := FirstDefault(vs);
            c.Some? && vs[c.value].id == id && r != [] ==> FirstDefault(r) == Some(0)
    ensures var r := VaultService.RemoveVault(id, vs, saveOk).value;
            var c := FirstDefault(vs);
            !(c.Some? && vs[c.value].id == id) ==>
              (FirstDefault(r).Some? <==> c.Some?)
              && (c.Some? ==> r[FirstDefault(r).value] == vs[c.value])
  {
    RemoveValid(id, vs, saveOk);
    var c := FirstDefault(vs);
    if c.Some? && vs[c.value].id == id {
      RemoveCurrentHandsOver(id, vs, saveOk);
    } else {
      RemoveOtherKeepsCurrent(id, vs, saveOk);
    }
  }

  /** Removing keeps ids distinct and at most one default, and the id is gone. */
  lemma {:induction false} RemoveValid(id: string, vs: seq<Vault>, saveOk: bool)
    requires ValidVaults(vs) && VaultService.RemoveVault(id, vs, saveOk).Ok?
    ensures var r := VaultService.RemoveVault(id, vs, saveOk).value;
            ValidVaults(r) && id !in VaultIds(r)
  {
    var r := VaultService.RemoveVault(id, vs, saveOk).value;
    var w := WithoutVault(vs, id);
    RemoveKeepsAtMostOneDefault(id, vs, saveOk);
    WithoutVaultUnique(vs, id);
    WithoutVaultIds(vs, id);
    if FindVault(vs, id).value.isDefault && w != [] {
      assert r == MarkFirstDefault(w);
      SameIdsKeepUnique(w, r);
      MarkFirstDefaultIds(w);
    } else {
      assert r == w;
    }
  }

  /** Removing the current vault makes the first remaining vault current. */
  lemma {:induction false} RemoveCurrentHandsOver(id: string, vs: seq<Vault>, saveOk: bool)
    requires ValidVaults(vs) && VaultService.RemoveVault(id, vs, saveOk).Ok?
    requires var c := FirstDefault(vs); c.Some? && vs[c.value].id == id
    ensures var r := VaultService.RemoveVault(id, vs, saveOk).value;
            r != [] ==> FirstDefault(r) == Some(0)
  {
    var c := FirstDefault(vs).value;
    var f := FindVault(vs, id).value;
    assert f == vs[c] by {
      var i :| 0 <= i < |vs| && vs[i] == f;
      assert vs[i].id == vs[c].id;
    }
    var r := VaultService.RemoveVault(id, vs, saveOk).value;
    assert r == MarkFirstDefault(WithoutVault(vs, id));
  }

  /** Removing a vault that is not the current one leaves the current vault in place. */
  lemma {:induction false} RemoveOtherKeepsCurrent(id: string, vs: seq<Vault>, saveOk: bool)
    requires ValidVaults(vs) && VaultService.RemoveVault(id, vs, saveOk).Ok?
    requires var c := FirstDefault(vs); !(c.Some? && vs[c.value].id == id)
    ensures var r := VaultService.RemoveVault(id, vs, saveOk).value;
            var c := FirstDefault(vs);
            (FirstDefault(r).Some? <==> c.Some?) && (c.Some? ==> r[FirstDefault(r).value] == vs[c.value])
  {
    var r := VaultService.RemoveVault(id, vs, saveOk).value;
    var c := FirstDefault(vs);
    NoDefaultWithId(vs, id);
    assert r == WithoutVault(vs, id);
    RemoveVaultKeepsDefaultCount(vs, id);
    if c.Some? {
      OnlyDefaultSurvives(vs, r, vs[c.value]);
    }
  }

  /** In a valid list whose current vault does not carry `id`, no default vault carries it. */
  lemma {:induction false} NoDefaultWithId(vs: seq<Vault>, id: string)
    requires ValidVaults(vs)
    requires var c := FirstDefault(vs); !(c.Some? && vs[c.value].id == id)
    ensures forall v :: v in vs && v.id == id ==> !v.isDefault
  {
    forall v | v in vs && v.id == id
      ensures !v.isDefault
    {
      var j :| 0 <= j < |vs| && vs[j] == v;
      DefaultIsFirst(vs, j);
    }
  }

  /** With at most one default, a default vault sits at the first default's index. */
  lemma {:induction false} DefaultIsFirst(vs: seq<Vault>, j: nat)
    requires DefaultCount(vs) <= 1 && j < |vs|
    ensures vs[j].isDefault ==> FirstDefault(vs) == Some(j)
  {
    if vs[j].isDefault {
      OneDefault(vs, j);
      FirstDefaultIsOnlyDefault(vs);
    }
  }

  /** A default vault that is present in a list with a single default is that list's first default. */
  lemma {:induction false} OnlyDefaultSurvives(vs: seq<Vault>, r: seq<Vault>, d: Vault)
    requires DefaultCount(r) == DefaultCount(vs) <= 1 && d in r && d.isDefault
    ensures FirstDefault(r).Some? && r[FirstDefault(r).value] == d
  {
    var k :| 0 <= k < |r| && r[k] == d;
    OneDefault(r, k);
    FirstDefaultIsOnlyDefault(r);
  }

  lemma {:induction false} RemoveVaultKeepsDefaultCount(vs: seq<Vault>, id: string)
    requires forall v :: v in vs && v.id == id ==> !v.isDefault
    ensures DefaultCount(WithoutVault(vs, id)) == DefaultCount(vs)
  {
    if vs != [] {
      assert forall v :: v in vs[1..] ==> v in vs;
      RemoveVaultKeepsDefaultCount(vs[1..], id);
      var rest := WithoutVault(vs[1..], id);
      if vs[0].id != id {
        assert WithoutVault(vs, id) == [vs[0]] + rest;
        assert ([vs[0]] + rest)[1..] == rest;
      } else {
        assert WithoutVault(vs, id) == rest;
      }
    }
  }
}
