// The slot service and the bootstrapper at work on real buffers: data keys, PINs and wrapped
// keys are zeroed after use, while rows keep copies and the master key is shared.
module SlotObjects {
  import opened Wrappers
  import opened GoSlices
  import opened AesGcm
  import opened KeyManagers
  import opened SlotLabels
  import opened SlotVault
  import opened SlotBootstrap

  /** The two tables. Columns are copied in and out. */
  class Database {
    var slots: map<string, SlotRow>
    var metas: map<string, MetaRow>

    constructor ()
      ensures View() == Tables(map[], map[])
    {
      slots, metas := map[], map[];
    }

    ghost function View(): Tables
      reads this
    {
      Tables(slots, metas)
    }

    method CreateSlot(id: string, row: SlotRow, fails: bool) returns (ok: bool)
      modifies this
      ensures var t := InsertSlot(old(View()), id, row, fails);
              ok == t.Some? && View() == if ok then t.value else old(View())
    {
      if fails || id in slots {
        return false;
      }
      slots := slots[id := row.(keyMetadataId := None)];
      return true;
    }

    method CreateMetadata(id: string, meta: MetaRow, fails: bool) returns (ok: bool)
      modifies this
      ensures var t := InsertMetadata(old(View()), id, meta, fails);
              ok == t.Some? && View() == if ok then t.value else old(View())
    {
      if fails || id in metas {
        return false;
      }
      metas := metas[id := meta];
      if meta.slotId in slots {
        slots := slots[meta.slotId := slots[meta.slotId].(keyMetadataId := Some(id))];
      }
      return true;
    }

    method DeleteSlot(id: string, fails: bool)
      modifies this
      ensures View() == RemoveSlot(old(View()), id, fails)
    {
      if !fails {
        slots := slots - {id};
      }
    }

    method DeleteMetadata(id: string, fails: bool)
      modifies this
      ensures View() == RemoveMetadata(old(View()), id, fails)
    {
      if !fails {
        metas := metas - {id};
      }
    }

    /** The driver copies each column into a slice of its own, with whatever room behind it. */
    method ScanRow(id: string, room: nat) returns (r: Option<RowRef>)
      requires id in slots
      ensures r.Some? <==> slots[id].keyMetadataId.Some?
      ensures r.Some? ==> r.value.Ok() && fresh(r.value.Buffers()) && r.value.Value() == Listed(id, slots[id])
    {
      var row := slots[id];
      var iv := Make(row.iv, room);
      var ciphertext := Make(row.ciphertext, room);
      var tag := Make(row.tag, room);
      if row.keyMetadataId.None? {
        return None;
      }
      return Some(RowRef(id, row.text, row.number, row.temporary, iv, ciphertext, tag, row.keyMetadataId.value));
    }

    /** One turn of the scanning loop. */
    method ScanNext(read: seq<RowRef>, ghost arrays: set<array<Byte>>, id: string, room: nat, ghost got: seq<Listed>)
      returns (r: Option<seq<RowRef>>, ghost all: set<array<Byte>>)
      requires id in slots && Separate(read, arrays) && Hold(read, arrays, got)
      ensures r.Some? <==> slots[id].keyMetadataId.Some?
      ensures r.Some? ==> fresh(all - arrays) && Separate(r.value, all) && Hold(r.value, all, got + [Listed(id, slots[id])])
    {
      all := arrays;
      var one := ScanRow(id, room);
      if one.None? {
        return None, all;
      }
      OneRowMore(read, arrays, got, one.value, Listed(id, slots[id]));
      return Some(read + [one.value]), arrays + one.value.Buffers();
    }

    method GetAllSlots(order: seq<string>, fails: bool, room: nat) returns (rows: Option<seq<RowRef>>, ghost arrays: set<array<Byte>>)
      requires Lists(View(), order)
      ensures rows.Some? <==> SlotBootstrap.GetAllSlots(View(), order, fails).Some?
      ensures rows.Some? ==> && fresh(arrays) && Separate(rows.value, arrays)
                             && Hold(rows.value, arrays, SlotBootstrap.GetAllSlots(View(), order, fails).value)
    {
      arrays := {};
      if fails {
        return None, arrays;
      }
      ghost var t := View();
      ReadRowsExactly(t, order);
      rows := Some([]);
      assert order[..0] == [];
      for i := 0 to |order|
        invariant rows.Some? && fresh(arrays) && Separate(rows.value, arrays)
        invariant ReadRows(t, order[..i]).Some? && Hold(rows.value, arrays, ReadRows(t, order[..i]).value)
      {
        assert order[i] in order && order[..i + 1][..i] == order[..i];
        rows, arrays := ScanNext(rows.value, arrays, order[i], room, ReadRows(t, order[..i]).value);
        if rows.None? {
          return;
        }
      }
      assert order[..|order|] == order;
    }

    method UpdateSlotNumber(id: string, number: nat, fails: bool)
      modifies this
      ensures metas == old(metas)
      ensures slots == if !fails && id in old(slots) then old(slots)[id := old(slots)[id].(number := number, temporary := false)] else old(slots)
    {
      if !fails && id in slots {
        slots := slots[id := slots[id].(number := number, temporary := false)];
      }
    }
  }

  /** A slot as the query hands it over: its PIN columns are byte slices. */
  datatype RowRef = RowRef(id: string, text: string, number: nat, temporary: bool,
                           iv: Slice, ciphertext: Slice, tag: Slice, keyMetadataId: string) {
    ghost predicate Ok() {
      iv.Ok() && ciphertext.Ok() && tag.Ok() && iv.buf != ciphertext.buf && tag.buf != ciphertext.buf
    }

    ghost function Buffers(): set<array<Byte>> {
      {iv.buf, ciphertext.buf, tag.buf}
    }

    ghost function Value(): Listed
      requires Ok()
      reads Buffers()
    {
      Listed(id, SlotRow(text, number, temporary, iv.Bytes(), ciphertext.Bytes(), tag.Bytes(), Some(keyMetadataId)))
    }
  }

  /** Every row lives in arrays of its own, all of them among `arrays`. */
  ghost predicate Separate(rows: seq<RowRef>, arrays: set<array<Byte>>) {
    && (forall i :: 0 <= i < |rows| ==> rows[i].Ok() && rows[i].Buffers() <= arrays)
    && (forall i, j :: 0 <= i < |rows| && 0 <= j < |rows| && i != j ==> rows[i].Buffers() !! rows[j].Buffers())
  }

  ghost predicate Hold(rows: seq<RowRef>, arrays: set<array<Byte>>, slots: seq<Listed>)
    requires Separate(rows, arrays)
    reads arrays
  {
    |rows| == |slots| && forall i :: 0 <= i < |rows| ==> rows[i].Value() == slots[i]
  }

  lemma OneRowMore(rows: seq<RowRef>, arrays: set<array<Byte>>, slots: seq<Listed>, row: RowRef, slot: Listed)
    requires Separate(rows, arrays) && Hold(rows, arrays, slots) && row.Ok() && row.Value() == slot && arrays !! row.Buffers()
    ensures Separate(rows + [row], arrays + row.Buffers()) && Hold(rows + [row], arrays + row.Buffers(), slots + [slot])
  {
    assert forall i :: 0 <= i < |rows| ==> rows[i].Buffers() <= arrays;
  }

  class CleanupHandler {
    const db: Database
    var operations: seq<CleanupOp>

    constructor (db: Database)
      ensures this.db == db && operations == []
    {
      this.db, operations := db, [];
    }

    method AddSlotCleanup(id: string)
      modifies this
      ensures operations == old(operations) + [DropSlot(id)]
    {
      operations := operations + [DropSlot(id)];
    }

    method AddMetadataCleanup(id: string)
      modifies this
      ensures operations == old(operations) + [DropMetadata(id)]
    {
      operations := operations + [DropMetadata(id)];
    }

    method Cleanup(f: CleanupFaults)
      modifies db
      ensures db.View() == UndoAll(old(db.View()), operations, f)
    {
      var i := |operations|;
      assert operations[..i] == operations;
      while i > 0
        invariant 0 <= i <= |operations|
        invariant UndoAll(db.View(), operations[..i], f) == UndoAll(old(db.View()), operations, f)
      {
        i := i - 1;
        assert operations[..i + 1][..i] == operations[..i];
        match operations[i] {
          case DropSlot(id) => db.DeleteSlot(id, f.slot);
          case DropMetadata(id) => db.DeleteMetadata(id, f.metadata);
        }
      }
    }
  }

  /** The slot that is handed back: its PIN columns are the buffers that were zeroed. */
  datatype SlotRef = SlotRef(id: string, text: string, number: nat, iv: Slice, ciphertext: Slice, tag: Slice)

  /** The buffers createHSMSlot works with. */
  datatype SealedPin = SealedPin(slotKey: Slice, wrapped: Slice, pin: EncryptedRef) {
    ghost predicate Ok() {
      && slotKey.Ok() && wrapped.Ok() && pin.Ok() && pin.ciphertext.Adjoins(pin.tag)
      && slotKey.buf != wrapped.buf && slotKey.buf != pin.iv.buf && slotKey.buf != pin.ciphertext.buf
      && wrapped.buf != pin.iv.buf && wrapped.buf != pin.ciphertext.buf && pin.iv.buf != pin.ciphertext.buf
    }

    ghost function Buffers(): set<array<Byte>> {
      {slotKey.buf, wrapped.buf, pin.iv.buf, pin.ciphertext.buf}
    }
  }

  class SlotService {
    const manager: LocalAESKeyManager
    const db: Database

    constructor (manager: LocalAESKeyManager, db: Database)
      ensures this.manager == manager && this.db == db
    {
      this.manager, this.db := manager, db;
    }

    method StoreSlot(d: Draws, f: StoreFaults, row: SlotRow, wrapped: seq<Byte>) returns (error: Option<StoreError>)
      modifies db
      ensures Stored(db.View(), error) == StoreRows(old(db.View()), d.slotId, row, d.metaId, MetaRow(d.slotId, manager.keyId, wrapped), f)
    {
      var cleaner := new CleanupHandler(db);
      var ok := db.CreateSlot(d.slotId, row, f.createSlot);
      if !ok {
        cleaner.Cleanup(f.cleanup);
        return Some(CreateSlotFailed);
      }
      cleaner.AddSlotCleanup(d.slotId);
      ok := db.CreateMetadata(d.metaId, MetaRow(d.slotId, manager.keyId, wrapped), f.createMetadata);
      if !ok {
        db.DeleteSlot(d.slotId, f.rollback);
        assert [] + [DropSlot(d.slotId)] == [DropSlot(d.slotId)];
        cleaner.Cleanup(f.cleanup);
        return Some(CreateMetadataFailed);
      }
      cleaner.AddMetadataCleanup(d.metaId);
      return None;
    }

    /** A data key, the PIN encrypted under it, and the data key wrapped under the master key. */
    method SealPin(q: Request, d: Draws) returns (r: Result<SealedPin, StoreError>)
      requires IsGcm(manager.a)
      ensures var key := d.dataKey;
              && (r == Err(NoDataKey) <==> key.None?)
              && (r == Err(EncryptFailed) <==> key.Some? && d.pinNonce.None?)
              && (r == Err(WrapFailed) <==> (key.Some? && d.pinNonce.Some? && WrapDataKey(manager.a, manager.Keys(), manager.keyId, key.value, d.wrapNonce).Err?))
              && (r.Err? ==> r.error in {NoDataKey, EncryptFailed, WrapFailed})
      ensures r.Ok? ==> r.value.Ok() && fresh(r.value.Buffers()) && d.pinNonce.Some?
                        && Ok(r.value.wrapped.Bytes()) == WrapDataKey(manager.a, manager.Keys(), manager.keyId, d.dataKey.value, d.wrapNonce)
                        && r.value.pin.Value() == Encrypt(manager.a, d.dataKey.value, q.pin, d.pinNonce).value.(keyId := manager.keyId)
    {
      var slotKey := GenerateAES256Key(d.dataKey);
      if slotKey.Err? {
        return Err(NoDataKey);
      }
      var pin := Make(q.pin, 0);
      var encrypted := manager.EncryptWithKey(slotKey.value, pin, d.pinNonce);
      if encrypted.Err? {
        return Err(EncryptFailed);
      }
      ghost var value := encrypted.value.Value();
      var wrapped := manager.WrapKey(manager.keyId, slotKey.value, d.wrapNonce);
      if wrapped.Err? {
        return Err(WrapFailed);
      }
      assert encrypted.value.Value() == value;
      return Ok(SealedPin(slotKey.value, wrapped.value, encrypted.value));
    }

    /** The rows of a sealed PIN, as copies of its buffers. */
    method StoreSealed(q: Request, d: Draws, f: StoreFaults, p: SealedPin) returns (error: Option<StoreError>)
      requires IsGcm(manager.a) && p.Ok() && d.dataKey.Some? && d.pinNonce.Some?
      requires Ok(p.wrapped.Bytes()) == WrapDataKey(manager.a, manager.Keys(), manager.keyId, d.dataKey.value, d.wrapNonce)
      requires p.pin.Value() == Encrypt(manager.a, d.dataKey.value, q.pin, d.pinNonce).value.(keyId := manager.keyId)
      modifies db
      ensures Stored(db.View(), error) == SlotVault.CreateHSMSlot(manager.a, manager.Keys(), manager.keyId, old(db.View()), q, d, f)
    {
      var e := p.pin;
      var row := SlotRow(q.text, q.number, d.temporary, e.iv.Bytes(), e.ciphertext.Bytes(), e.tag.Bytes(), Some(d.metaId));
      assert row == RowFor(manager.a, q, d);
      error := StoreSlot(d, f, row, p.wrapped.Bytes());
    }

    /** The tables get copies before the buffers are zeroed; the master key is not touched. */
    method CreateHSMSlot(q: Request, d: Draws, f: StoreFaults) returns (r: Result<SlotRef, StoreError>)
      requires IsGcm(manager.a)
      modifies db
      ensures Stored(db.View(), if r.Ok? then None else Some(r.error))
           == SlotVault.CreateHSMSlot(manager.a, manager.Keys(), manager.keyId, old(db.View()), q, d, f)
      ensures r.Ok? ==> && r.value.iv.Ok() && r.value.ciphertext.Ok() && r.value.tag.Ok()
                        && r.value.iv.Bytes() == Zeros(r.value.iv.len)
                        && r.value.ciphertext.Bytes() == Zeros(r.value.ciphertext.len)
                        && r.value.tag.Bytes() == Zeros(r.value.tag.len)
    {
      var made := SealPin(q, d);
      if made.Err? {
        return Err(made.error);
      }
      var error := StoreSealed(q, d, f, made.value);
      if error.Some? {
        return Err(error.value);
      }
      Wipe(made.value);
      return Ok(SlotRef(d.slotId, q.text, q.number, made.value.pin.iv, made.value.pin.ciphertext, made.value.pin.tag));
    }

    method Wipe(p: SealedPin)
      requires p.Ok()
      modifies p.Buffers()
      ensures p.slotKey.Bytes() == Zeros(p.slotKey.len) && p.wrapped.Bytes() == Zeros(p.wrapped.len)
      ensures var e := p.pin;
              e.iv.Bytes() == Zeros(e.iv.len) && e.ciphertext.Bytes() == Zeros(e.ciphertext.len) && e.tag.Bytes() == Zeros(e.tag.len)
    {
      ZeroBytes(p.slotKey);
      ZeroBytes(p.wrapped);
      ZeroBytes(p.pin.iv);
      ghost var done := (p.slotKey.Bytes(), p.wrapped.Bytes(), p.pin.iv.Bytes());
      ZeroBytes(p.pin.ciphertext);
      ghost var half := p.pin.ciphertext.Bytes();
      ZeroBytes(p.pin.tag);
      assert p.pin.ciphertext.Bytes() == half;
      assert done == (p.slotKey.Bytes(), p.wrapped.Bytes(), p.pin.iv.Bytes());
    }
  }

  class HSMBootstrapper {
    const manager: LocalAESKeyManager
    const db: Database

    constructor (manager: LocalAESKeyManager, db: Database)
      ensures this.manager == manager && this.db == db
    {
      this.manager, this.db := manager, db;
    }

    /** The first three steps of initializeSlot: the PIN, and the two buffers to zero later. The
        tag is appended behind the row's ciphertext. */
    method DecryptPin(row: RowRef, meta: MetaRow, room: nat) returns (r: Result<(Slice, Slice), RecoverError>)
      requires row.Ok() && manager.masterKey !in row.Buffers()
      modifies row.ciphertext.buf
      ensures row.Value() == old(row.Value())
      ensures var key := UnwrapDataKey(manager.a, manager.Keys(), meta.versionId, meta.wrapped);
              var value := row.Value().row;
              && (r.Err? ==> r.error == if key.Err? then NoSlotKey else NoPin)
              && (r.Ok? <==> key.Ok? && Decrypt(manager.a, key.value, Encrypted(value.iv, value.ciphertext, value.tag, ALGORITHM, meta.versionId)).Ok?)
              && (r.Ok? ==>
                    && r.value.0.Ok() && r.value.1.Ok() && fresh(r.value.0.buf) && fresh(r.value.1.buf) && r.value.0.buf != r.value.1.buf
                    && Ok(r.value.1.Bytes()) == Decrypt(manager.a, key.value, Encrypted(value.iv, value.ciphertext, value.tag, ALGORITHM, meta.versionId)))
    {
      var wrapped := Make(meta.wrapped, room);
      var slotKey := manager.UnwrapKey(meta.versionId, wrapped);
      if slotKey.Err? {
        return Err(NoSlotKey);
      }
      var e := EncryptedRef(row.iv, row.ciphertext, row.tag, ALGORITHM, meta.versionId);
      var pin := manager.DecryptWithKey(slotKey.value, e, room);
      if pin.Err? {
        return Err(NoPin);
      }
      return Ok((slotKey.value, pin.value));
    }

    method ResolveNumber(row: RowRef, look: Look) returns (number: nat)
      requires row.Ok()
      modifies db
      ensures number == NumberFor(row.Value().row, look.tokens)
      ensures db.View() == AfterInitialize(old(db.View()), row.Value(), look)
    {
      if !row.temporary || look.tokens.None? {
        return row.number;
      }
      var found := FindSlotByLabel(look.tokens.value, row.text);
      if found.None? {
        return row.number;
      }
      db.UpdateSlotNumber(row.id, found.value, look.update);
      return found.value;
    }

    /** The PIN that NewSoftHSMClient is called with, and the registry after that: data key and
        PIN are zeroed whether or not a client was built. */
    method InitializeSlot(row: RowRef, look: Look, room: nat, registry: map<nat, Attempt>)
      returns (attempt: Option<Attempt>, after: map<nat, Attempt>)
      requires row.Ok() && manager.masterKey !in row.Buffers()
      modifies db, row.ciphertext.buf
      ensures row.Value() == old(row.Value())
      ensures attempt == AttemptFor(manager.a, manager.Keys(), old(db.metas), row.Value(), look)
      ensures db.View() == if attempt.None? then old(db.View()) else AfterInitialize(old(db.View()), row.Value(), look)
      ensures after == if attempt.None? || look.client then registry else registry[attempt.value.number := attempt.value]
    {
      if look.metadata || row.keyMetadataId !in db.metas {
        return None, registry;
      }
      var recovered := DecryptPin(row, db.metas[row.keyMetadataId], room);
      if recovered.Err? {
        return None, registry;
      }
      var one := UsePin(row, look, recovered.value.0, recovered.value.1);
      return Some(one), if look.client then registry else registry[one.number := one];
    }

    /** The rest of initializeSlot: data key and PIN end as zeros, the PIN string does not. */
    method UsePin(row: RowRef, look: Look, slotKey: Slice, pinBytes: Slice) returns (one: Attempt)
      requires row.Ok() && slotKey.Ok() && pinBytes.Ok() && slotKey.buf != pinBytes.buf
      requires slotKey.buf !in row.Buffers() && pinBytes.buf !in row.Buffers()
      modifies db, slotKey.buf, pinBytes.buf
      ensures one == Attempt(row.id, NumberFor(row.Value().row, look.tokens), old(pinBytes.Bytes()))
      ensures db.View() == AfterInitialize(old(db.View()), row.Value(), look)
      ensures slotKey.Bytes() == Zeros(slotKey.len) && pinBytes.Bytes() == Zeros(pinBytes.len)
    {
      var pin := pinBytes.Bytes();
      var number := ResolveNumber(row, look);
      one := Attempt(row.id, number, pin);
      ZeroBytes(slotKey);
      ghost var done := slotKey.Bytes();
      ZeroBytes(pinBytes);
      assert slotKey.Bytes() == done;
    }

    /** One slot after the other: appending behind one row's ciphertext and zeroing its data key
        and PIN reach neither the master key nor the tables nor the columns of another row. */
    method Bootstrap(order: seq<string>, looks: seq<Look>, fails: bool, room: nat)
      returns (calls: seq<Attempt>, registry: map<nat, Attempt>, error: Option<BootError>)
      requires Lists(db.View(), order) && |looks| >= |order|
      modifies db
      ensures Booted(db.View(), calls, registry, error) == SlotBootstrap.Bootstrap(manager.a, manager.Keys(), old(db.View()), order, looks, fails)
      ensures manager.masterKey[..] == old(manager.masterKey[..])
    {
      calls, registry := [], map[];
      ghost var t := db.View();
      var rows, arrays := db.GetAllSlots(order, fails, room);
      if rows.None? {
        return calls, registry, Some(SlotsUnreadable);
      }
      ReadRowsExactly(t, order);
      ghost var slots := SlotBootstrap.GetAllSlots(t, order, fails).value;
      calls, registry := VisitAll(rows.value, arrays, looks, room, slots);
      error := if registry == map[] then Some(NoClients) else None;
    }

    method VisitAll(rows: seq<RowRef>, ghost arrays: set<array<Byte>>, looks: seq<Look>, room: nat, ghost slots: seq<Listed>)
      returns (calls: seq<Attempt>, registry: map<nat, Attempt>)
      requires |looks| >= |rows| && Separate(rows, arrays) && Hold(rows, arrays, slots) && manager.masterKey !in arrays
      modifies db, arrays
      ensures Booted(db.View(), calls, registry, None) == Visited(manager.a, manager.Keys(), old(db.View()), slots, looks)
      ensures Hold(rows, arrays, slots) && manager.masterKey[..] == old(manager.masterKey[..])
    {
      ghost var t, key := db.View(), manager.masterKey[..];
      calls, registry := [], map[];
      for i := 0 to |rows|
        invariant Hold(rows, arrays, slots) && manager.masterKey[..] == key && db.metas == t.metas
        invariant Booted(db.View(), calls, registry, None) == Visited(manager.a, manager.Keys(), t, slots[..i], looks)
      {
        assert slots[..i + 1][..i] == slots[..i];
        assert rows[i].Buffers() <= arrays && rows[i].ciphertext.buf in rows[i].Buffers();
        var one;
        one, registry := InitializeSlot(rows[i], looks[i], room, registry);
        forall j | 0 <= j < |rows| ensures rows[j].Value() == slots[j] {
          assert rows[i].ciphertext.buf in rows[i].Buffers();
        }
        if one.Some? {
          calls := calls + [one.value];
        }
      }
      assert slots[..|rows|] == slots;
    }
  }
}
