// What a caller of the key service can rely on, and exactly where it cannot.
module KeyTheorems {
  import opened Wrappers
  import opened KeyStores
  import opened KeyLifecycle
  import opened KeyRuns

  // ----- the exception that no failing call announces -------------------------

  const CALM_GENERATE := GenerateFaults(false, false, false, false, false, false)
  const CALM_DESTROY := DestroyFaults(false, false, false, false, false)
  const CALM_CREATE := CreateFaults(false, false, CALM_GENERATE, false, CALM_DESTROY)

  /** Create a key, then delete it while the search for its private object fails: every call
      reports success, the row is gone, and the private object is still there. */
  lemma SilentFallbackLeavesAnOrphan()
    ensures var env := Env(map["t" := 1], Upsert);
            var caller := Caller("t", BLANK_PROFILE);
            var drawn := Drawn("id", "0000aaaa", []);
            var search := CALM_DESTROY.(privSearch := true);
            var cs := [Create(caller, KeySpec("k", RSA, 2048, Signing), drawn, CALM_CREATE),
                       Delete("id", "t", DeleteFaults(false, false, false, search, false))];
            var w := Run(env, EMPTY, cs);
            && UnusedRun(env, EMPTY, cs)
            && w.ledger.failed == {}
            && w.stores.rows == map[] && w.stores.priv == {Loc(1, "t_k_0000aaaa")}
  {
    var env := Env(map["t" := 1], Upsert);
    var caller := Caller("t", BLANK_PROFILE);
    var drawn := Drawn("id", "0000aaaa", []);
    var spec := KeySpec("k", RSA, 2048, Signing);
    var search := CALM_DESTROY.(privSearch := true);
    var create := Create(caller, spec, drawn, CALM_CREATE);
    var delete := Delete("id", "t", DeleteFaults(false, false, false, search, false));
    var loc := NewLoc(env, caller, "k", drawn);
    assert "t" + "_" + "k" + "_" + "0000aaaa" == "t_k_0000aaaa";
    assert loc == Loc(1, "t_k_0000aaaa");
    var w1 := Exec(env, EMPTY, create);
    assert w1.stores == Stores({loc}, {loc}, map["id" := NewKey(caller, spec, drawn)]);
    var w2 := Exec(env, w1, delete);
    assert w2.stores.rows == map[] && w2.stores.priv == {loc};
    assert [create, delete][1..] == [delete];
    assert [delete][1..] == [];
    assert Run(env, w1, [delete]) == Run(env, w2, []);
  }

  /** DeleteKey on a location in agreement breaks the agreement exactly when the token
      destroys an object and one of these two happens, but not both: the search for the private
      object fails, so that only the public one goes, or the row cannot be deleted. */
  lemma DeleteBreaksAgreementExactly(env: Env, w: World, id: string, tenantId: string, f: DeleteFaults)
    requires Inv(env, w) && id in w.stores.rows && w.stores.rows[id].tenantId == tenantId
    requires !f.find && !f.tenant && !f.slot
    requires Agree(env, w.stores, RowLoc(env, w.stores.rows[id]))
    ensures var loc := RowLoc(env, w.stores.rows[id]);
            var d := f.destroy;
            !Agree(env, DeleteKey(env, w.stores, id, tenantId, f).stores, loc) <==>
              && !d.noClient && !d.closed && !d.destroy
              && (if d.privSearch then !f.row && !d.pubSearch && loc in w.stores.pub else f.row)
  {
  }

  // ----- what a failed call leaves behind -------------------------------------

  ghost predicate Restored(before: Stores, after: Stores) {
    after.rows == before.rows && after.priv == before.priv
  }

  /** CreateKey gets as far as putting both objects into the token. */
  predicate MakesObjects(env: Env, caller: Caller, spec: KeySpec, f: CreateFaults) {
    && spec.usage.IsValid() && Supported(spec.algorithm, spec.size)
    && !f.tenant && caller.tenantId in env.slots && !f.slot
    && !f.generate.noClient && !f.generate.closed && !f.generate.generate
  }

  /** What a caller of CreateKey can check beforehand, and which calls must not fail. */
  predicate CanCreate(env: Env, s: Stores, caller: Caller, spec: KeySpec, drawn: Drawn, f: CreateFaults) {
    && MakesObjects(env, caller, spec, f) && !f.generate.exporting
    && spec.name != "" && caller.tenantId != "" && !f.save && (env.mode.Upsert? || drawn.id !in s.rows)
  }

  lemma CreateSucceedsExactly(env: Env, s: Stores, caller: Caller, spec: KeySpec, drawn: Drawn, f: CreateFaults)
    ensures CreateKey(env, s, caller, spec, drawn, f).reply.Ok? <==> CanCreate(env, s, caller, spec, drawn, f)
  {
  }

  /** What a created key is: the record handed back is the row stored, it holds what was asked for
      and what was drawn, and both objects lie under its label in the tenant's token. */
  lemma CreatedKeyHolds(env: Env, s: Stores, caller: Caller, spec: KeySpec, drawn: Drawn, f: CreateFaults)
    requires CreateKey(env, s, caller, spec, drawn, f).reply.Ok?
    ensures var o := CreateKey(env, s, caller, spec, drawn, f);
            var key := o.reply.value;
            var name := caller.tenantId + "_" + spec.name + "_" + drawn.suffix;
            && drawn.id in o.stores.rows && o.stores.rows[drawn.id] == key
            && key.id == drawn.id && key.publicKey == drawn.publicKey && key.tenantId == caller.tenantId
            && key.name == spec.name && key.algorithm == spec.algorithm && key.keySize == spec.size && key.purpose == spec.usage
            && key.version == 1 && key.isActive && key.keyHandle == name && key.keyLabel == name
            && key.profile.ownerType == caller.profile.ownerType && key.profile.ownerId == caller.profile.ownerId
            && key.profile.parentKeyId == caller.profile.parentKeyId && key.profile.certLevel == caller.profile.certLevel
            && key.profile.slotId == caller.profile.slotId && key.profile.expiration == caller.profile.expiration
            && key.profile.alias == name
            && caller.tenantId in env.slots && Loc(env.slots[caller.tenantId], name) in o.stores.priv * o.stores.pub
  {
  }

  /** Which check fails first decides the error of CreateKey. */
  lemma CreateErrorsExactly(env: Env, s: Stores, caller: Caller, spec: KeySpec, drawn: Drawn, f: CreateFaults)
    ensures var reply := CreateKey(env, s, caller, spec, drawn, f).reply;
            var known := spec.algorithm.RSA? || spec.algorithm.ECDSA? || spec.algorithm.Ed25519?;
            var usable := spec.usage.Signing? || spec.usage.Encryption? || spec.usage.Both?;
            var tenant := !f.tenant && caller.tenantId in env.slots;
            var made := MakesObjects(env, caller, spec, f) && !f.generate.exporting;
            var refused := f.save || (env.mode.Insert? && drawn.id in s.rows);
            && (reply == Err(InvalidAlgorithm) <==> !known)
            && (reply == Err(InvalidUsage) <==> known && !usable)
            && (reply == Err(TenantNotFound) <==> known && usable && !tenant)
            && (reply == Err(SlotNotFound) <==> known && usable && tenant && f.slot)
            && (reply == Err(HsmFailed) <==> known && usable && tenant && !f.slot && !made)
            && (reply == Err(InvalidKey) <==> made && (spec.name == "" || caller.tenantId == ""))
            && (reply == Err(SaveFailed) <==> made && spec.name != "" && caller.tenantId != "" && refused)
  {
  }

  /** The sizes that can be generated at all: Ed25519 is accepted and then refused by the token. */
  lemma KeySizesExactly(algorithm: Algorithm, size: int)
    ensures Supported(algorithm, size) <==>
              (algorithm.RSA? && (size == 2048 || size == 3072 || size == 4096))
              || (algorithm.ECDSA? && (size == 256 || size == 384 || size == 521))
  {
  }

  /** CreateKey leaves rows and private objects as they were exactly when it made no objects,
      or failed later and the destroy calls belonging to that stage worked. */
  lemma CreateRestoresExactly(env: Env, s: Stores, caller: Caller, spec: KeySpec, drawn: Drawn, f: CreateFaults)
    requires drawn.id !in s.rows
    requires var loc := NewLoc(env, caller, spec.name, drawn); loc !in s.priv && loc !in s.pub
    ensures Restored(s, CreateKey(env, s, caller, spec, drawn, f).stores) <==>
              || !MakesObjects(env, caller, spec, f)
              || (if f.generate.exporting then !f.generate.destroyPriv
                  else !CanCreate(env, s, caller, spec, drawn, f) && Clean(f.undo))
  {
    var loc := NewLoc(env, caller, spec.name, drawn);
    assert s.priv + {loc} - {loc} == s.priv;
    assert loc in s.priv + {loc};
    assert |loc.keyLabel| >= 2;
  }

  /** Once the replacement key exists, RotateKey restores rows and private objects exactly when
      both lookups work, the old key's Save fails and both compensations work. A failing tenant
      or slot lookup leaves the new key in place, active. */
  lemma RotateRestoresExactly(env: Env, s: Stores, id: string, caller: Caller, drawn: Drawn, f: RotateFaults)
    requires id in s.rows && s.rows[id].id == id && s.rows[id].tenantId == caller.tenantId && !f.find
    requires drawn.id !in s.rows
    requires var loc := NewLoc(env, caller, s.rows[id].name + "-rotated", drawn); loc !in s.priv && loc !in s.pub
    requires CanCreate(env, s, caller, RotatedSpec(s.rows[id]), drawn, f.create)
    ensures var after := RotateKey(env, s, id, caller, drawn, f).stores;
            && (Restored(s, after) <==>
                  !f.tenant && !f.slot && (f.save || env.mode.Insert?) && Clean(f.undo) && !f.undoRow)
            && (f.tenant || f.slot ==> drawn.id in after.rows && after.rows[drawn.id].isActive
                                       && RowLoc(env, after.rows[drawn.id]) in after.priv)
  {
    CreateSucceedsExactly(env, s, caller, RotatedSpec(s.rows[id]), drawn, f.create);
    RotateEffect(env, s, id, caller, drawn, f);
    var key := NewKey(caller, RotatedSpec(s.rows[id]), drawn);
    assert key.id in s.rows[key.id := key];
    assert RowLoc(env, key) in s.priv + {RowLoc(env, key)};
  }

  /** With the INSERT that the MySQL storage issues, no rotation ever succeeds, and none
      touches a row that was there before. */
  lemma InsertNeverRotates(env: Env, s: Stores, id: string, caller: Caller, drawn: Drawn, f: RotateFaults)
    requires env.mode.Insert?
    requires forall i :: i in s.rows ==> s.rows[i].id == i
    requires drawn.id !in s.rows
    ensures var o := RotateKey(env, s, id, caller, drawn, f);
            o.reply.Err? && forall i :: i in s.rows ==> i in o.stores.rows && o.stores.rows[i] == s.rows[i]
  {
    if id in s.rows && s.rows[id].tenantId == caller.tenantId && !f.find {
      var made := CreateKey(env, s, caller, RotatedSpec(Loaded(s.rows[id])), drawn, f.create);
      assert made.stores.rows == s.rows || (made.reply.Ok? && made.stores.rows == s.rows[drawn.id := made.reply.value]);
    }
  }

  /** A rotation succeeds exactly when Save replaces rows, the replacement can be created and
      no call fails. */
  lemma RotateSucceedsExactly(env: Env, s: Stores, id: string, caller: Caller, drawn: Drawn, f: RotateFaults)
    requires id in s.rows && s.rows[id].id == id && drawn.id !in s.rows
    ensures RotateKey(env, s, id, caller, drawn, f).reply.Ok? <==>
              && env.mode.Upsert? && s.rows[id].tenantId == caller.tenantId
              && !f.find && !f.tenant && !f.slot && !f.save
              && CanCreate(env, s, caller, RotatedSpec(s.rows[id]), drawn, f.create)
  {
    if s.rows[id].tenantId == caller.tenantId && !f.find {
      CreateSucceedsExactly(env, s, caller, RotatedSpec(s.rows[id]), drawn, f.create);
    }
  }

  /** What the replacement of a rotated key is. */
  lemma RotatedKeyHolds(env: Env, s: Stores, id: string, caller: Caller, drawn: Drawn, f: RotateFaults)
    requires id in s.rows && s.rows[id].id == id && drawn.id !in s.rows
    requires RotateKey(env, s, id, caller, drawn, f).reply.Ok?
    ensures var o := RotateKey(env, s, id, caller, drawn, f);
            var added := o.reply.value;
            var name := s.rows[id].tenantId + "_" + (s.rows[id].name + "-rotated") + "_" + drawn.suffix;
            && drawn.id in o.stores.rows && o.stores.rows[drawn.id] == added
            && added.id == drawn.id && added.publicKey == drawn.publicKey && added.tenantId == caller.tenantId
            && added.name == s.rows[id].name + "-rotated" && added.algorithm == s.rows[id].algorithm
            && added.keySize == s.rows[id].keySize && added.purpose == s.rows[id].purpose
            && added.version == 1 && added.isActive && added.keyHandle == name && added.keyLabel == name
            && added.profile == caller.profile.(alias := name)
  {
    RotateSucceedsExactly(env, s, id, caller, drawn, f);
    CreatedKeyHolds(env, s, caller, RotatedSpec(s.rows[id]), drawn, f.create);
  }

  /** The errors RotateKey adds to those of CreateKey. */
  lemma RotateErrorsExactly(env: Env, s: Stores, id: string, caller: Caller, drawn: Drawn, f: RotateFaults)
    requires forall i :: i in s.rows ==> s.rows[i].id == i
    requires drawn.id !in s.rows
    ensures var reply := RotateKey(env, s, id, caller, drawn, f).reply;
            var found := !f.find && id in s.rows && s.rows[id].tenantId == caller.tenantId;
            && (reply == Err(KeyNotFound) <==> !found)
            && (found ==>
                  var spec := KeySpec(s.rows[id].name + "-rotated", s.rows[id].algorithm, s.rows[id].keySize, s.rows[id].purpose);
                  var create := CreateKey(env, s, caller, spec, drawn, f.create).reply;
                  && (create.Err? ==> reply == create)
                  && (create.Ok? ==>
                        && (reply == Err(TenantNotFound) <==> f.tenant)
                        && (reply == Err(SlotNotFound) <==> !f.tenant && f.slot)
                        && (reply == Err(SaveFailed) <==> !f.tenant && !f.slot && (f.save || env.mode.Insert?))))
  {
  }

  /** A successful rotation leaves the old key inactive and one new active key of the same
      tenant, algorithm, size and purpose; nothing else moves, except that the old row loses
      the columns its finder does not select. */
  lemma RotateReplaces(env: Env, s: Stores, id: string, caller: Caller, drawn: Drawn, f: RotateFaults)
    requires id in s.rows && s.rows[id].id == id && drawn.id !in s.rows
    requires var loc := NewLoc(env, caller, s.rows[id].name + "-rotated", drawn); loc !in s.priv && loc !in s.pub
    requires RotateKey(env, s, id, caller, drawn, f).reply.Ok?
    ensures var o := RotateKey(env, s, id, caller, drawn, f);
            var added := o.stores.rows[drawn.id];
            var kept := o.stores.rows[id];
            && o.stores.rows.Keys == s.rows.Keys + {drawn.id}
            && (forall i :: i in s.rows && i != id ==> o.stores.rows[i] == s.rows[i])
            && o.reply == Ok(added) && added.isActive && !kept.isActive
            && added.tenantId == kept.tenantId == s.rows[id].tenantId && added.algorithm == s.rows[id].algorithm
            && added.keySize == s.rows[id].keySize && added.purpose == s.rows[id].purpose
            && o.stores.priv == s.priv + {RowLoc(env, added)} && RowLoc(env, added) !in s.priv
            && (kept == s.rows[id].(isActive := false) <==> s.rows[id].profile == BLANK_PROFILE)
  {
    assert caller.tenantId == s.rows[id].tenantId && !f.find;
    RotateEffect(env, s, id, caller, drawn, f);
  }

  // ----- repeated rotation -----------------------------------------------------

  datatype Turn = Turn(drawn: Drawn, faults: RotateFaults)

  /** Rotate a key, then the key that replaced it, and so on; None as soon as one call fails. */
  function RotateRepeatedly(env: Env, s: Stores, id: string, caller: Caller, turns: seq<Turn>): Option<Stores>
    decreases |turns|
  {
    if turns == [] then Some(s)
    else
      var o := RotateKey(env, s, id, caller, turns[0].drawn, turns[0].faults);
      if o.reply.Err? then None
      else RotateRepeatedly(env, o.stores, turns[0].drawn.id, caller, turns[1..])
  }

  predicate TurnsUnused(env: Env, s: Stores, id: string, caller: Caller, turns: seq<Turn>)
    decreases |turns|
  {
    turns == [] ||
    (id in s.rows && turns[0].drawn.id !in s.rows
     && (var loc := NewLoc(env, caller, s.rows[id].name + "-rotated", turns[0].drawn); loc !in s.priv && loc !in s.pub)
     && TurnsUnused(env, RotateKey(env, s, id, caller, turns[0].drawn, turns[0].faults).stores,
                    turns[0].drawn.id, caller, turns[1..]))
  }

  /** The ids the turns draw, first one first. */
  function DrawnIds(turns: seq<Turn>): seq<string> {
    if turns == [] then [] else [turns[0].drawn.id] + DrawnIds(turns[1..])
  }

  /** The rows of `line` are there and only `last`'s key is active; it is like the one that
      was rotated first, and every row outside the line is as it was. */
  ghost predicate LineEndsIn(rows: map<string, Key>, after: map<string, Key>, id: string, line: set<string>, last: string) {
    && id in rows && last in after && after.Keys == rows.Keys + line
    && (forall i :: i in line && i in after ==> (after[i].isActive <==> i == last))
    && after[last].algorithm == rows[id].algorithm && after[last].keySize == rows[id].keySize
    && after[last].purpose == rows[id].purpose && after[last].tenantId == rows[id].tenantId
    && (forall i :: i in rows && i != id ==> after[i] == rows[i])
  }

  /** After any number of rotations exactly the last key of the line is active, and every row
      outside the line is as it was. */
  lemma OnlyTheLastRotatedKeyIsActive(env: Env, s: Stores, id: string, caller: Caller, turns: seq<Turn>)
    requires turns != [] && id in s.rows && TurnsUnused(env, s, id, caller, turns)
    requires forall i :: i in s.rows ==> s.rows[i].id == i
    requires RotateRepeatedly(env, s, id, caller, turns).Some?
    ensures LineEndsIn(s.rows, RotateRepeatedly(env, s, id, caller, turns).value.rows, id,
                       (set x | x in DrawnIds(turns)) + {id}, turns[|turns| - 1].drawn.id)
  {
    var trail := TrailOf(env, s, id, caller, turns);
    LastDrawn(turns);
    TrailEndsIn(trail, id, DrawnIds(turns));
  }

  lemma {:induction false} LastDrawn(turns: seq<Turn>)
    requires turns != []
    ensures var ids := DrawnIds(turns); |ids| == |turns| && ids[|ids| - 1] == turns[|turns| - 1].drawn.id
  {
    if |turns| > 1 { LastDrawn(turns[1..]); }
  }

  // The key tables that a line of rotations leaves one after the other.
  ghost predicate IsTrail(trail: seq<map<string, Key>>, id: string, ids: seq<string>)
    decreases |ids|
  {
    |trail| == |ids| + 1
    && (ids == [] || (ids[0] !in trail[0] && LineEndsIn(trail[0], trail[1], id, {id, ids[0]}, ids[0])
                      && IsTrail(trail[1..], ids[0], ids[1..])))
  }

  lemma {:induction false} TrailOf(env: Env, s: Stores, id: string, caller: Caller, turns: seq<Turn>) returns (trail: seq<map<string, Key>>)
    requires id in s.rows && TurnsUnused(env, s, id, caller, turns)
    requires forall i :: i in s.rows ==> s.rows[i].id == i
    requires RotateRepeatedly(env, s, id, caller, turns).Some?
    ensures IsTrail(trail, id, DrawnIds(turns))
    ensures trail[0] == s.rows && trail[|trail| - 1] == RotateRepeatedly(env, s, id, caller, turns).value.rows
    decreases |turns|
  {
    if turns == [] {
      trail := [s.rows];
    } else {
      var turn := turns[0];
      RotatedOnce(env, s, id, caller, turn);
      var rest := TrailOf(env, RotateKey(env, s, id, caller, turn.drawn, turn.faults).stores, turn.drawn.id, caller, turns[1..]);
      trail := [s.rows] + rest;
      assert trail[1..] == rest && DrawnIds(turns)[1..] == DrawnIds(turns[1..]);
    }
  }

  lemma RotatedOnce(env: Env, s: Stores, id: string, caller: Caller, turn: Turn)
    requires id in s.rows && TurnsUnused(env, s, id, caller, [turn])
    requires forall i :: i in s.rows ==> s.rows[i].id == i
    requires RotateKey(env, s, id, caller, turn.drawn, turn.faults).reply.Ok?
    ensures var rows1 := RotateKey(env, s, id, caller, turn.drawn, turn.faults).stores.rows;
            LineEndsIn(s.rows, rows1, id, {id, turn.drawn.id}, turn.drawn.id) && forall i :: i in rows1 ==> rows1[i].id == i
  {
    RotateReplaces(env, s, id, caller, turn.drawn, turn.faults);
    RotatedRowsKeepTheirIds(env, s, id, caller, turn.drawn, turn.faults);
  }

  lemma RotatedRowsKeepTheirIds(env: Env, s: Stores, id: string, caller: Caller, drawn: Drawn, f: RotateFaults)
    requires forall i :: i in s.rows ==> s.rows[i].id == i
    ensures var rows := RotateKey(env, s, id, caller, drawn, f).stores.rows;
            forall i :: i in rows ==> rows[i].id == i
  {
  }

  /** No later turn draws the id of a row that is already there. */
  lemma {:induction false} LaterIdsAreNew(trail: seq<map<string, Key>>, id: string, ids: seq<string>)
    requires IsTrail(trail, id, ids)
    ensures forall x :: x in ids ==> x !in trail[0]
    decreases |ids|
  {
    if ids != [] {
      LaterIdsAreNew(trail[1..], ids[0], ids[1..]);
      assert ids == [ids[0]] + ids[1..];
    }
  }

  lemma {:induction false} TrailEndsIn(trail: seq<map<string, Key>>, id: string, ids: seq<string>)
    requires ids != [] && IsTrail(trail, id, ids)
    ensures LineEndsIn(trail[0], trail[|trail| - 1], id, (set x | x in ids) + {id}, ids[|ids| - 1])
    decreases |ids|
  {
    var next := ids[0];
    assert ids == [next] + ids[1..];
    assert (set x | x in ids) == (set x | x in ids[1..]) + {next};
    if |ids| == 1 {
      assert (set x | x in ids) + {id} == {id, next};
    } else {
      LaterIdsAreNew(trail, id, ids);
      TrailEndsIn(trail[1..], next, ids[1..]);
      assert ids[|ids| - 1] in ids;
      LineGrows(trail[0], trail[1], trail[|trail| - 1], id, next, (set x | x in ids), ids[|ids| - 1]);
    }
  }

  lemma LineGrows(rows: map<string, Key>, rows1: map<string, Key>, after: map<string, Key>,
                  id: string, next: string, line: set<string>, last: string)
    requires LineEndsIn(rows, rows1, id, {id, next}, next) && next !in rows
    requires LineEndsIn(rows1, after, next, line, last) && next in line && id !in line && last != id
    ensures LineEndsIn(rows, after, id, line + {id}, last)
  {
  }
}
