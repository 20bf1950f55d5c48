// The key and signing services as the objects they are: two mutable stores and a service
// that calls them in order, each method proved against its function in KeyLifecycle.
module KeyServiceObjects {
  import opened Wrappers
  import opened KeyStores
  import opened KeyLifecycle

  class SoftHSM {
    var priv: set<Loc>
    var pub: set<Loc>

    constructor ()
      ensures priv == {} && pub == {}
    {
      priv, pub := {}, {};
    }

    ghost function With(rows: map<string, Key>): Stores
      reads this
    {
      Stores(priv, pub, rows)
    }

    method GenerateKeyPair(loc: Loc, algorithm: Algorithm, size: int, f: GenerateFaults) returns (ok: bool)
      modifies this
      ensures forall rows :: With(rows) == KeyStores.GenerateKeyPair(old(With(rows)), loc, algorithm, size, f).stores
      ensures forall rows :: ok == KeyStores.GenerateKeyPair(old(With(rows)), loc, algorithm, size, f).ok
    {
      if f.noClient || loc.keyLabel == "" || f.closed {
        return false;
      }
      if !Supported(algorithm, size) || f.generate {
        return false;
      }
      var otherPriv, otherPub := priv, pub;
      priv, pub := priv + {loc}, pub + {loc};
      if f.exporting {
        // Destroyed by handle: objects that were there before stay.
        if !f.destroyPub {
          pub := otherPub;
        }
        if !f.destroyPriv {
          priv := otherPriv;
        }
        return false;
      }
      return true;
    }

    method DeleteKey(loc: Loc, f: DestroyFaults) returns (ok: bool)
      modifies this
      ensures forall rows :: With(rows) == DestroyKey(old(With(rows)), loc, f).stores
      ensures forall rows :: ok == DestroyKey(old(With(rows)), loc, f).ok
    {
      if f.noClient {
        return false;
      }
      var isPrivate := true;
      var found := !f.privSearch && loc in priv;
      if !found {
        isPrivate := false;
        found := !f.pubSearch && loc in pub;
        if !found {
          return false;
        }
      }
      if f.closed || f.destroy {
        return false;
      }
      if isPrivate {
        priv := priv - {loc};
      } else {
        pub := pub - {loc};
      }
      return true;
    }
  }

  class KeyTable {
    var rows: map<string, Key>

    constructor ()
      ensures rows == map[]
    {
      rows := map[];
    }

    method Save(k: Key, mode: SaveMode, fails: bool) returns (ok: bool)
      modifies this
      ensures var saved := SaveRow(old(rows), k, mode, fails);
              ok == saved.Some? && rows == if ok then saved.value else old(rows)
    {
      if fails || (mode.Insert? && k.id in rows) {
        return false;
      }
      rows := rows[k.id := k];
      return true;
    }

    method Delete(id: string, fails: bool) returns (ok: bool)
      modifies this
      ensures var deleted := DeleteRow(old(rows), id, fails);
              ok == deleted.Some? && rows == if ok then deleted.value else old(rows)
    {
      if fails {
        return false;
      }
      if id !in rows {
        return false;
      }
      rows := rows - {id};
      return true;
    }

    method FindByIDAndTenant(id: string, tenantId: string, fails: bool) returns (found: Option<Key>)
      ensures found == FindRow(rows, id, tenantId, fails)
    {
      if !fails && id in rows && rows[id].tenantId == tenantId {
        return Some(Loaded(rows[id]));
      }
      return None;
    }
  }

  /** The record a service method holds; Deactivate changes it in place. */
  class LoadedKey {
    var key: Key

    constructor (k: Key)
      ensures key == k
    {
      key := k;
    }

    method Deactivate()
      modifies this
      ensures key == old(key).(isActive := false)
    {
      key := key.(isActive := false);
    }
  }

  class KeyService {
    const env: Env
    const hsm: SoftHSM
    const repo: KeyTable

    constructor (env: Env, hsm: SoftHSM, repo: KeyTable)
      ensures this.env == env && this.hsm == hsm && this.repo == repo
    {
      this.env, this.hsm, this.repo := env, hsm, repo;
    }

    ghost function Both(): Stores
      reads hsm, repo
    {
      hsm.With(repo.rows)
    }

    method CreateKey(caller: Caller, spec: KeySpec, drawn: Drawn, f: CreateFaults) returns (reply: Result<Key, KeyError>)
      modifies hsm, repo
      ensures var o := KeyLifecycle.CreateKey(env, old(Both()), caller, spec, drawn, f);
              Both() == o.stores && reply == o.reply
    {
      if !spec.algorithm.IsValid() {
        return Err(InvalidAlgorithm);
      }
      if !spec.usage.IsValid() {
        return Err(InvalidUsage);
      }
      if f.tenant || caller.tenantId !in env.slots {
        return Err(TenantNotFound);
      }
      if f.slot {
        return Err(SlotNotFound);
      }
      var loc := Loc(env.slots[caller.tenantId], KeyLabel(caller.tenantId, spec.name, drawn.suffix));
      var ok := hsm.GenerateKeyPair(loc, spec.algorithm, spec.size, f.generate);
      if !ok {
        return Err(HsmFailed);
      }
      var key := NewKey(caller, spec, drawn);
      if !Validate(key) {
        var _ := hsm.DeleteKey(loc, f.undo);
        return Err(InvalidKey);
      }
      ok := repo.Save(key, env.mode, f.save);
      if !ok {
        var _ := hsm.DeleteKey(loc, f.undo);
        return Err(SaveFailed);
      }
      return Ok(key);
    }

    method RotateKey(id: string, caller: Caller, drawn: Drawn, f: RotateFaults) returns (reply: Result<Key, KeyError>)
      modifies hsm, repo
      ensures var o := KeyLifecycle.RotateKey(env, old(Both()), id, caller, drawn, f);
              Both() == o.stores && reply == o.reply
    {
      var found := repo.FindByIDAndTenant(id, caller.tenantId, f.find);
      if found.None? {
        return Err(KeyNotFound);
      }
      var existing := new LoadedKey(found.value);
      reply := CreateKey(caller, RotatedSpec(existing.key), drawn, f.create);
      if reply.Err? {
        return;
      }
      if f.tenant {
        return Err(TenantNotFound);
      }
      if f.slot {
        return Err(SlotNotFound);
      }
      existing.Deactivate();
      var ok := repo.Save(existing.key, env.mode, f.save);
      if !ok {
        var _ := hsm.DeleteKey(RowLoc(env, reply.value), f.undo);
        var _ := repo.Delete(reply.value.id, f.undoRow);
        return Err(SaveFailed);
      }
    }

    method DeleteKey(id: string, tenantId: string, f: DeleteFaults) returns (error: Option<KeyError>)
      modifies hsm, repo
      ensures var o := KeyLifecycle.DeleteKey(env, old(Both()), id, tenantId, f);
              Both() == o.stores && error == if o.reply.Ok? then None else Some(o.reply.error)
    {
      var found := repo.FindByIDAndTenant(id, tenantId, f.find);
      if found.None? {
        return Some(KeyNotFound);
      }
      if f.tenant || tenantId !in env.slots {
        return Some(TenantNotFound);
      }
      if f.slot {
        return Some(SlotNotFound);
      }
      var ok := hsm.DeleteKey(RowLoc(env, found.value), f.destroy);
      if !ok {
        return Some(HsmFailed);
      }
      ok := repo.Delete(id, f.row);
      if !ok {
        return Some(DeleteFailed);
      }
      return None;
    }

    method ValidateKeyAndGetSlot(id: string, tenantId: string, f: SignFaults) returns (r: Result<Key, KeyError>)
      ensures r == KeyLifecycle.ValidateKeyAndGetSlot(env, Both(), id, tenantId, f)
    {
      var found := repo.FindByIDAndTenant(id, tenantId, f.find);
      if found.None? {
        return Err(KeyNotFound);
      }
      var key := found.value;
      if !key.isActive {
        return Err(KeyInactive);
      }
      if !key.purpose.Signing? && !key.purpose.Both? {
        return Err(InvalidUsage);
      }
      if f.tenant || tenantId !in env.slots {
        return Err(TenantNotFound);
      }
      if f.slot {
        return Err(SlotNotFound);
      }
      return Ok(key);
    }

    method SignHash(id: string, tenantId: string, hash: seq<bv8>, f: SignFaults) returns (reply: Result<Signature, KeyError>)
      ensures reply == KeyLifecycle.SignHash(env, Both(), id, tenantId, hash, f)
    {
      var key := ValidateKeyAndGetSlot(id, tenantId, f);
      if key.Err? {
        return Err(key.error);
      }
      var loc := Loc(env.slots[tenantId], key.value.keyLabel);
      if f.client || loc !in hsm.priv || !key.value.algorithm.RSA? {
        return Err(HsmFailed);
      }
      return Ok(Signature(loc, hash));
    }

    method VerifyHashSignature(id: string, tenantId: string, hash: seq<bv8>, signature: Signature, f: SignFaults)
      returns (reply: Result<bool, KeyError>)
      ensures reply == KeyLifecycle.VerifyHashSignature(env, Both(), id, tenantId, hash, signature, f)
    {
      var key := ValidateKeyAndGetSlot(id, tenantId, f);
      if key.Err? {
        return Err(key.error);
      }
      var loc := Loc(env.slots[tenantId], key.value.keyLabel);
      if f.client || loc !in hsm.pub || !key.value.algorithm.RSA? {
        return Err(HsmFailed);
      }
      return Ok(signature == Signature(loc, hash));
    }
  }
}
