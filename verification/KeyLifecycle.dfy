// CreateKey, RotateKey, DeleteKey and the signing gate, as functions of the two stores
// and of the calls that fail.
module KeyLifecycle {
  import opened Wrappers
  import opened KeyStores

  datatype KeyError =
    | InvalidAlgorithm | InvalidUsage | TenantNotFound | SlotNotFound | HsmFailed
    | InvalidKey | SaveFailed | KeyNotFound | DeleteFailed | KeyInactive

  /** `failed`: locations for which a destroying or compensating call returned an error.
      `fellBack`: locations for which such a call succeeded on the public object only. */
  datatype Outcome = Outcome(stores: Stores, reply: Result<Key, KeyError>, failed: set<Loc>, fellBack: set<Loc>)

  /** The caller: its tenant, and what a key created for it stores about its owner. */
  datatype Caller = Caller(tenantId: string, profile: Profile)

  /** Values the service draws itself: two UUIDs (the label keeps 8 characters of one)
      and the exported public key. */
  datatype Drawn = Drawn(id: string, suffix: string, publicKey: seq<bv8>)

  datatype KeySpec = KeySpec(name: string, algorithm: Algorithm, size: int, usage: Usage)

  function KeyLabel(tenantId: string, name: string, suffix: string): string {
    tenantId + "_" + name + "_" + suffix
  }

  function NewLoc(env: Env, caller: Caller, name: string, drawn: Drawn): Loc {
    Loc(if caller.tenantId in env.slots then env.slots[caller.tenantId] else -1,
        KeyLabel(caller.tenantId, name, drawn.suffix))
  }

  function NewKey(caller: Caller, spec: KeySpec, drawn: Drawn): Key {
    var keyLabel := KeyLabel(caller.tenantId, spec.name, drawn.suffix);
    Key(drawn.id, caller.tenantId, spec.name, spec.algorithm, spec.size, spec.usage, drawn.publicKey,
        keyLabel, keyLabel, 1, true, caller.profile.(alias := keyLabel))
  }

  datatype CreateFaults = CreateFaults(tenant: bool, slot: bool, generate: GenerateFaults, save: bool, undo: DestroyFaults)

  /** The destroy request made to compensate, and what it leaves behind. */
  function Compensate(s: Stores, loc: Loc, error: KeyError, f: DestroyFaults): Outcome {
    var d := DestroyKey(s, loc, f);
    Outcome(d.stores, Err(error), if d.ok then {} else {loc}, if d.fellBack then {loc} else {})
  }

  function CreateKey(env: Env, s: Stores, caller: Caller, spec: KeySpec, drawn: Drawn, f: CreateFaults): Outcome {
    var loc := NewLoc(env, caller, spec.name, drawn);
    var key := NewKey(caller, spec, drawn);
    var g := GenerateKeyPair(s, loc, spec.algorithm, spec.size, f.generate);
    var saved := SaveRow(s.rows, key, env.mode, f.save);
    if !spec.algorithm.IsValid() then
      Outcome(s, Err(InvalidAlgorithm), {}, {})
    else if !spec.usage.IsValid() then
      Outcome(s, Err(InvalidUsage), {}, {})
    else if f.tenant || caller.tenantId !in env.slots then
      Outcome(s, Err(TenantNotFound), {}, {})
    else if f.slot then
      Outcome(s, Err(SlotNotFound), {}, {})
    else if !g.ok then
      Outcome(g.stores, Err(HsmFailed), if g.stuck then {loc} else {}, {})
    else if !Validate(key) then
      Compensate(g.stores, loc, InvalidKey, f.undo)
    else if saved.None? then
      Compensate(g.stores, loc, SaveFailed, f.undo)
    else
      Outcome(g.stores.(rows := saved.value), Ok(key), {}, {})
  }

  datatype RotateFaults = RotateFaults(find: bool, create: CreateFaults, tenant: bool, slot: bool, save: bool,
                                       undo: DestroyFaults, undoRow: bool)

  function RotatedSpec(existing: Key): KeySpec {
    KeySpec(existing.name + "-rotated", existing.algorithm, existing.keySize, existing.purpose)
  }

  function RotateKey(env: Env, s: Stores, id: string, caller: Caller, drawn: Drawn, f: RotateFaults): Outcome {
    match FindRow(s.rows, id, caller.tenantId, f.find)
    case None => Outcome(s, Err(KeyNotFound), {}, {})
    case Some(existing) =>
      var c := CreateKey(env, s, caller, RotatedSpec(existing), drawn, f.create);
      if c.reply.Err? then c
      else if f.tenant then c.(reply := Err(TenantNotFound))
      else if f.slot then c.(reply := Err(SlotNotFound))
      else
        var saved := SaveRow(c.stores.rows, existing.(isActive := false), env.mode, f.save);
        if saved.Some? then c.(stores := c.stores.(rows := saved.value))
        else
          var undone := Compensate(c.stores, RowLoc(env, c.reply.value), SaveFailed, f.undo);
          var row := DeleteRow(undone.stores.rows, c.reply.value.id, f.undoRow);
          if row.Some? then undone.(stores := undone.stores.(rows := row.value))
          else undone.(failed := undone.failed + {RowLoc(env, c.reply.value)})
  }

  datatype DeleteFaults = DeleteFaults(find: bool, tenant: bool, slot: bool, destroy: DestroyFaults, row: bool)

  function DeleteKey(env: Env, s: Stores, id: string, tenantId: string, f: DeleteFaults): Outcome {
    match FindRow(s.rows, id, tenantId, f.find)
    case None => Outcome(s, Err(KeyNotFound), {}, {})
    case Some(key) =>
      if f.tenant || tenantId !in env.slots then Outcome(s, Err(TenantNotFound), {}, {})
      else if f.slot then Outcome(s, Err(SlotNotFound), {}, {})
      else
        var loc := RowLoc(env, key);
        var d := DestroyKey(s, loc, f.destroy);
        var row := DeleteRow(d.stores.rows, id, f.row);
        if !d.ok then Outcome(s, Err(HsmFailed), {loc}, {})
        else if row.None? then
          Outcome(d.stores, Err(DeleteFailed), {loc}, if d.fellBack then {loc} else {})
        else
          Outcome(d.stores.(rows := row.value), Ok(key), {}, if d.fellBack then {loc} else {})
  }

  datatype SignFaults = SignFaults(find: bool, tenant: bool, slot: bool, client: bool)

  /** A signature names the private object that made it. */
  datatype Signature = Signature(signer: Loc, hash: seq<bv8>)

  /** The gate that signing and verifying share; the slot is the caller's tenant's. */
  function ValidateKeyAndGetSlot(env: Env, s: Stores, id: string, tenantId: string, f: SignFaults): Result<Key, KeyError> {
    match FindRow(s.rows, id, tenantId, f.find)
    case None => Err(KeyNotFound)
    case Some(key) =>
      if !key.isActive then Err(KeyInactive)
      else if !key.purpose.Signing? && !key.purpose.Both? then Err(InvalidUsage)
      else if f.tenant || tenantId !in env.slots then Err(TenantNotFound)
      else if f.slot then Err(SlotNotFound)
      else Ok(key)
  }

  /** The one mechanism used is CKM_SHA256_RSA_PKCS, whatever the key; the token refuses it for
      an object of another type. An object has the algorithm of the row made with it. */
  function SignHash(env: Env, s: Stores, id: string, tenantId: string, hash: seq<bv8>, f: SignFaults)
    : Result<Signature, KeyError>
  {
    match ValidateKeyAndGetSlot(env, s, id, tenantId, f)
    case Err(e) => Err(e)
    case Ok(key) =>
      var loc := Loc(env.slots[tenantId], key.keyLabel);
      if f.client || loc !in s.priv || !key.algorithm.RSA? then Err(HsmFailed)
      else Ok(Signature(loc, hash))
  }

  function VerifyHashSignature(env: Env, s: Stores, id: string, tenantId: string, hash: seq<bv8>, signature: Signature, f: SignFaults)
    : Result<bool, KeyError>
  {
    match ValidateKeyAndGetSlot(env, s, id, tenantId, f)
    case Err(e) => Err(e)
    case Ok(key) =>
      var loc := Loc(env.slots[tenantId], key.keyLabel);
      if f.client || loc !in s.pub || !key.algorithm.RSA? then Err(HsmFailed)
      else Ok(signature == Signature(loc, hash))
  }
}
