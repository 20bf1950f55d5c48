// How a slot's PIN is stored, as functions of the two tables: encrypted under a data key that
// is itself wrapped under the master key, with two rows that point at each other.
module SlotVault {
  import opened Wrappers
  import opened GoSlices
  import opened AesGcm
  import opened KeyManagers

  datatype SlotRow = SlotRow(text: string, number: nat, temporary: bool, iv: seq<Byte>, ciphertext: seq<Byte>,
                             tag: seq<Byte>, keyMetadataId: Option<string>)

  datatype MetaRow = MetaRow(slotId: string, versionId: string, wrapped: seq<Byte>)

  datatype Tables = Tables(slots: map<string, SlotRow>, metas: map<string, MetaRow>)

  // ----- the two storages -----------------------------------------------------------

  /** The insert leaves the metadata column NULL. */
  function InsertSlot(t: Tables, id: string, row: SlotRow, fails: bool): Option<Tables> {
    if fails || id in t.slots then None else Some(t.(slots := t.slots[id := row.(keyMetadataId := None)]))
  }

  /** One transaction: the metadata row, and the slot row's pointer to it. */
  function InsertMetadata(t: Tables, id: string, meta: MetaRow, fails: bool): Option<Tables> {
    if fails || id in t.metas then None
    else
      var slots := if meta.slotId in t.slots
                   then t.slots[meta.slotId := t.slots[meta.slotId].(keyMetadataId := Some(id))] else t.slots;
      Some(Tables(slots, t.metas[id := meta]))
  }

  function RemoveSlot(t: Tables, id: string, fails: bool): Tables {
    if fails then t else t.(slots := t.slots - {id})
  }

  function RemoveMetadata(t: Tables, id: string, fails: bool): Tables {
    if fails then t else t.(metas := t.metas - {id})
  }

  datatype CleanupOp = DropSlot(id: string) | DropMetadata(id: string)

  datatype CleanupFaults = CleanupFaults(slot: bool, metadata: bool)

  function Undo(t: Tables, op: CleanupOp, f: CleanupFaults): Tables {
    match op
    case DropSlot(id) => RemoveSlot(t, id, f.slot)
    case DropMetadata(id) => RemoveMetadata(t, id, f.metadata)
  }

  /** The registered operations, last one first. */
  function UndoAll(t: Tables, ops: seq<CleanupOp>, f: CleanupFaults): Tables
    decreases |ops|
  {
    if ops == [] then t else UndoAll(Undo(t, ops[|ops| - 1], f), ops[..|ops| - 1], f)
  }

  // ----- createHSMSlot -----------------------------------------------------------------

  datatype Request = Request(text: string, number: nat, pin: seq<Byte>)

  type DataKey = k: Option<seq<Byte>> | k.Some? ==> |k.value| == KEY_SIZE witness None

  /** What is drawn on the way, and what the table gives a new row by default. */
  datatype Draws = Draws(dataKey: DataKey, pinNonce: Nonce, wrapNonce: Nonce, slotId: string, metaId: string, temporary: bool)

  datatype StoreFaults = StoreFaults(createSlot: bool, createMetadata: bool, rollback: bool, cleanup: CleanupFaults)

  datatype StoreError = NoDataKey | EncryptFailed | WrapFailed | CreateSlotFailed | CreateMetadataFailed

  datatype Stored = Stored(tables: Tables, error: Option<StoreError>)

  ghost function RowFor(a: Aead, q: Request, d: Draws): SlotRow
    requires IsGcm(a) && d.dataKey.Some? && d.pinNonce.Some?
  {
    var e := Encrypt(a, d.dataKey.value, q.pin, d.pinNonce).value;
    SlotRow(q.text, q.number, d.temporary, e.iv, e.ciphertext, e.tag, Some(d.metaId))
  }

  /** The two inserts, with the explicit rollback and the deferred cleanup. */
  function StoreRows(t: Tables, slotId: string, row: SlotRow, metaId: string, meta: MetaRow, f: StoreFaults): Stored {
    var t1 := InsertSlot(t, slotId, row, f.createSlot);
    if t1.None? then Stored(t, Some(CreateSlotFailed))
    else
      var t2 := InsertMetadata(t1.value, metaId, meta, f.createMetadata);
      if t2.None? then
        Stored(UndoAll(RemoveSlot(t1.value, slotId, f.rollback), [DropSlot(slotId)], f.cleanup), Some(CreateMetadataFailed))
      else Stored(t2.value, None)
  }

  ghost function CreateHSMSlot(a: Aead, keys: Lookup, masterId: string, t: Tables, q: Request, d: Draws, f: StoreFaults): Stored
    requires IsGcm(a)
  {
    if d.dataKey.None? then Stored(t, Some(NoDataKey))
    else if d.pinNonce.None? then Stored(t, Some(EncryptFailed))
    else
      var wrapped := WrapDataKey(a, keys, masterId, d.dataKey.value, d.wrapNonce);
      if wrapped.Err? then Stored(t, Some(WrapFailed))
      else StoreRows(t, d.slotId, RowFor(a, q, d), d.metaId, MetaRow(d.slotId, masterId, wrapped.value), f)
  }

  /** The PIN can be sealed and the data key wrapped. */
  predicate CanSeal(keys: Lookup, masterId: string, d: Draws) {
    d.dataKey.Some? && d.pinNonce.Some? && d.wrapNonce.Some?
    && keys(masterId).Some? && |keys(masterId).value| == KEY_SIZE
  }

  /** The two inserts work. */
  predicate CanStore(t: Tables, metaId: string, f: StoreFaults) {
    !f.createSlot && !f.createMetadata && metaId !in t.metas
  }

  /** The slot row goes in, its metadata does not, and neither deletion takes the row out again. */
  predicate Strands(t: Tables, metaId: string, f: StoreFaults) {
    !f.createSlot && (f.createMetadata || metaId in t.metas) && f.rollback && f.cleanup.slot
  }

  /** What storing the rows of a new slot did to the tables. */
  ghost predicate BothRowsOrNone(t: Tables, slotId: string, metaId: string, stranded: bool, r: Stored) {
    && (r.error.None? ==>
          && metaId !in t.metas && slotId in r.tables.slots && metaId in r.tables.metas
          && r.tables.slots[slotId].keyMetadataId == Some(metaId) && r.tables.metas[metaId].slotId == slotId
          && r.tables.slots - {slotId} == t.slots && r.tables.metas - {metaId} == t.metas)
    && (r.error.Some? ==>
          && r.tables.metas == t.metas
          && (r.tables == t <==> !stranded)
          && (stranded ==> && r.tables.slots - {slotId} == t.slots && slotId in r.tables.slots
                           && r.tables.slots[slotId].keyMetadataId == None))
  }

  lemma StoringAddsBothRowsOrNone(t: Tables, slotId: string, row: SlotRow, metaId: string, meta: MetaRow, f: StoreFaults)
    requires slotId !in t.slots && meta.slotId == slotId
    ensures BothRowsOrNone(t, slotId, metaId, Strands(t, metaId, f), StoreRows(t, slotId, row, metaId, meta, f))
    ensures StoreRows(t, slotId, row, metaId, meta, f).error.None? <==> CanStore(t, metaId, f)
    ensures var r := StoreRows(t, slotId, row, metaId, meta, f);
            r.error.None? ==> r.tables.slots[slotId] == row.(keyMetadataId := Some(metaId)) && r.tables.metas[metaId] == meta
  {
    var bare := row.(keyMetadataId := None);
    var t1 := t.(slots := t.slots[slotId := bare]);
    assert t1.slots - {slotId} == t.slots && t.slots - {slotId} == t.slots;
    assert t1.slots[slotId := row.(keyMetadataId := Some(metaId))] - {slotId} == t.slots;
    assert metaId !in t.metas ==> t.metas[metaId := meta] - {metaId} == t.metas;
    assert [DropSlot(slotId)][..0] == [];
    forall u: Tables ensures UndoAll(u, [DropSlot(slotId)], f.cleanup) == RemoveSlot(u, slotId, f.cleanup.slot) {
      assert UndoAll(RemoveSlot(u, slotId, f.cleanup.slot), [], f.cleanup) == RemoveSlot(u, slotId, f.cleanup.slot);
    }
  }

  /** When a creation succeeds, and what it does: exactly two rows are added, and they point at
      each other. On error both tables are as they were, unless the metadata could not be
      written and both deletions of the slot row failed: then that row stays, pointing nowhere. */
  lemma CreateAddsBothRowsOrNone(a: Aead, keys: Lookup, masterId: string, t: Tables, q: Request, d: Draws, f: StoreFaults)
    requires IsGcm(a) && d.slotId !in t.slots
    ensures var r := CreateHSMSlot(a, keys, masterId, t, q, d, f);
            && BothRowsOrNone(t, d.slotId, d.metaId, CanSeal(keys, masterId, d) && Strands(t, d.metaId, f), r)
            && (r.error.None? <==> CanSeal(keys, masterId, d) && CanStore(t, d.metaId, f))
  {
    if d.dataKey.Some? && d.pinNonce.Some? {
      var wrapped := WrapDataKey(a, keys, masterId, d.dataKey.value, d.wrapNonce);
      if wrapped.Ok? {
        StoringAddsBothRowsOrNone(t, d.slotId, RowFor(a, q, d), d.metaId, MetaRow(d.slotId, masterId, wrapped.value), f);
      }
    }
  }

  /** What a successful creation stores: the requested label and number, the envelope made under
      the drawn data key and nonce, and the data key wrapped under the master key. */
  lemma StoredRowsHoldTheRequest(a: Aead, keys: Lookup, masterId: string, t: Tables, q: Request, d: Draws, f: StoreFaults)
    requires IsGcm(a) && d.slotId !in t.slots
    requires CanSeal(keys, masterId, d) && CanStore(t, d.metaId, f)
    ensures var after := CreateHSMSlot(a, keys, masterId, t, q, d, f).tables;
            && d.slotId in after.slots && d.metaId in after.metas
            && (var row := after.slots[d.slotId];
                && row.text == q.text && row.number == q.number && row.temporary == d.temporary
                && row.keyMetadataId == Some(d.metaId) && row.iv == d.pinNonce.value
                && row.ciphertext + row.tag == a.seal(d.dataKey.value, d.pinNonce.value, q.pin) && |row.tag| == 16)
            && (var meta := after.metas[d.metaId];
                && meta.slotId == d.slotId && meta.versionId == masterId
                && UnwrapDataKey(a, keys, masterId, meta.wrapped) == Ok(d.dataKey.value) && meta.wrapped[..12] == d.wrapNonce.value)
  {
    var wrapped := WrapDataKey(a, keys, masterId, d.dataKey.value, d.wrapNonce).value;
    StoringAddsBothRowsOrNone(t, d.slotId, RowFor(a, q, d), d.metaId, MetaRow(d.slotId, masterId, wrapped), f);
    EncryptsUnderTheNonce(a, d.dataKey.value, q.pin, d.pinNonce);
    WrapsDataKeyExactly(a, keys, masterId, d.dataKey.value, d.wrapNonce);
  }

  /** Which step fails first decides the error of a creation. */
  lemma CreationErrorsExactly(a: Aead, keys: Lookup, masterId: string, t: Tables, q: Request, d: Draws, f: StoreFaults)
    requires IsGcm(a) && d.slotId !in t.slots
    ensures var error := CreateHSMSlot(a, keys, masterId, t, q, d, f).error;
            && (error == Some(NoDataKey) <==> d.dataKey.None?)
            && (error == Some(EncryptFailed) <==> d.dataKey.Some? && d.pinNonce.None?)
            && (error == Some(WrapFailed) <==> d.dataKey.Some? && d.pinNonce.Some? && !CanSeal(keys, masterId, d))
            && (error == Some(CreateSlotFailed) <==> CanSeal(keys, masterId, d) && f.createSlot)
            && (error == Some(CreateMetadataFailed) <==> CanSeal(keys, masterId, d) && !f.createSlot && (f.createMetadata || d.metaId in t.metas))
  {
  }

  // ----- getting the PIN back -------------------------------------------------------------

  datatype RecoverError = NoMetadata | NoSlotKey | NoPin

  function RecoverPin(a: Aead, keys: Lookup, row: SlotRow, metas: map<string, MetaRow>): Result<seq<Byte>, RecoverError> {
    if row.keyMetadataId.None? || row.keyMetadataId.value !in metas then Err(NoMetadata)
    else
      var meta := metas[row.keyMetadataId.value];
      var slotKey := UnwrapDataKey(a, keys, meta.versionId, meta.wrapped);
      if slotKey.Err? then Err(NoSlotKey)
      else
        var pin := Decrypt(a, slotKey.value, Encrypted(row.iv, row.ciphertext, row.tag, ALGORITHM, meta.versionId));
        if pin.Err? then Err(NoPin) else Ok(pin.value)
  }

  /** A stored PIN comes back exactly if it is not empty. */
  lemma StoredPinComesBackExactly(a: Aead, keys: Lookup, masterId: string, t: Tables, q: Request, d: Draws, f: StoreFaults)
    requires IsGcm(a) && d.slotId !in t.slots
    requires CreateHSMSlot(a, keys, masterId, t, q, d, f).error.None?
    ensures var after := CreateHSMSlot(a, keys, masterId, t, q, d, f).tables;
            RecoverPin(a, keys, after.slots[d.slotId], after.metas) == if q.pin != [] then Ok(q.pin) else Err(NoPin)
  {
    var key := d.dataKey.value;
    var after := CreateHSMSlot(a, keys, masterId, t, q, d, f).tables;
    var wrapped := WrapDataKey(a, keys, masterId, key, d.wrapNonce).value;
    StoringAddsBothRowsOrNone(t, d.slotId, RowFor(a, q, d), d.metaId, MetaRow(d.slotId, masterId, wrapped), f);
    assert after.slots[d.slotId] == RowFor(a, q, d) && after.metas[d.metaId].wrapped == wrapped;
    UnwrapInvertsWrap(a, keys(masterId).value, key, d.wrapNonce);
    DecryptInvertsEncryptExactly(a, key, q.pin, d.pinNonce, masterId);
  }
}
