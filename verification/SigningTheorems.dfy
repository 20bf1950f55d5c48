// The signing gate over whole runs of the key service, and rows that can never leave.
module SigningTheorems {
  import opened Wrappers
  import opened KeyStores
  import opened KeyLifecycle
  import opened KeyRuns

  /** A signature is made only by the private object of a row that is at that moment in the
      caller's tenant, active and allowed to sign; and such a row signs, unless a call fails or
      its key is no RSA key. */
  lemma SignedExactlyBy(env: Env, w: World, id: string, tenantId: string, hash: seq<bv8>, f: SignFaults)
    requires Inv(env, w)
    ensures var r := SignHash(env, w.stores, id, tenantId, hash, f);
            r.Ok? <==>
              && !f.find && !f.tenant && !f.slot && !f.client
              && id in w.stores.rows && w.stores.rows[id].tenantId == tenantId
              && w.stores.rows[id].isActive && w.stores.rows[id].purpose in {Signing, Both}
              && w.stores.rows[id].algorithm.RSA?
              && RowLoc(env, w.stores.rows[id]) in w.stores.priv
    ensures var r := SignHash(env, w.stores, id, tenantId, hash, f);
            r.Ok? ==> r.value == Signature(RowLoc(env, w.stores.rows[id]), hash)
                      && forall j :: j in w.stores.rows && RowLoc(env, w.stores.rows[j]) == r.value.signer ==> j == id
  {
  }

  /** The same for verifying: an answer comes exactly if no call fails and the row is the
      tenant's, active, allowed to sign and RSA, and its public object exists. */
  lemma VerifiedExactlyBy(env: Env, w: World, id: string, tenantId: string, hash: seq<bv8>, signature: Signature, f: SignFaults)
    requires Inv(env, w)
    ensures var r := VerifyHashSignature(env, w.stores, id, tenantId, hash, signature, f);
            && (r.Ok? <==>
                  && !f.find && !f.tenant && !f.slot && !f.client
                  && id in w.stores.rows && w.stores.rows[id].tenantId == tenantId
                  && w.stores.rows[id].isActive && w.stores.rows[id].purpose in {Signing, Both}
                  && w.stores.rows[id].algorithm.RSA?
                  && RowLoc(env, w.stores.rows[id]) in w.stores.pub)
            && (r.Ok? ==> (r.value <==> signature == Signature(RowLoc(env, w.stores.rows[id]), hash)))
  {
  }

  /** Which check of the gate fails first decides the error. */
  lemma GateErrorsExactly(env: Env, w: World, id: string, tenantId: string, f: SignFaults)
    requires Inv(env, w)
    ensures var r := ValidateKeyAndGetSlot(env, w.stores, id, tenantId, f);
            var found := !f.find && id in w.stores.rows && w.stores.rows[id].tenantId == tenantId;
            && (r == Err(KeyNotFound) <==> !found)
            && (r == Err(KeyInactive) <==> found && !w.stores.rows[id].isActive)
            && (r == Err(InvalidUsage) <==> found && w.stores.rows[id].isActive && w.stores.rows[id].purpose !in {Signing, Both})
            && (r == Err(TenantNotFound) <==> found && w.stores.rows[id].isActive && w.stores.rows[id].purpose in {Signing, Both} && f.tenant)
            && (r == Err(SlotNotFound) <==> found && w.stores.rows[id].isActive && w.stores.rows[id].purpose in {Signing, Both} && !f.tenant && f.slot)
  {
  }

  /** What no command changes: where an existing row points, whether it was retired, which
      objects are gone; and no row disappears, except `gone`. */
  ghost predicate Persists(env: Env, w: World, after: Stores, gone: set<string>) {
    && (forall id :: id in w.stores.rows && id in after.rows ==>
          && RowLoc(env, after.rows[id]) == RowLoc(env, w.stores.rows[id])
          && (after.rows[id].isActive ==> w.stores.rows[id].isActive))
    && (forall id :: id in w.ledger.ids && id in after.rows ==> id in w.stores.rows)
    && (forall id :: id in after.rows && id !in w.stores.rows ==> RowLoc(env, after.rows[id]) !in w.ledger.locs)
    && after.priv * w.ledger.locs <= w.stores.priv
    && after.pub * w.ledger.locs <= w.stores.pub
    && w.stores.rows.Keys - gone <= after.rows.Keys
  }

  lemma TailPersists(env: Env, w: World, id: string, key: Key, loc: Loc, f: RotateFaults, o: Outcome)
    requires WellKept(env, w) && id in w.stores.rows && key.id !in w.ledger.ids && loc !in w.ledger.locs
    requires RowLoc(env, key) == loc && RotateTail(env, w.stores, id, key, loc, f, o)
    ensures Persists(env, w, o.stores, {})
  {
  }

  lemma RotatePersists(env: Env, w: World, c: Command)
    requires WellKept(env, w) && Unused(env, w, c) && c.Rotate?
    ensures Persists(env, w, Effect(env, w.stores, c).stores, {})
  {
    var f := c.rotateFaults;
    if FindRow(w.stores.rows, c.id, c.caller.tenantId, f.find).Some? {
      var spec := RotatedSpec(Loaded(w.stores.rows[c.id]));
      NotRecordedYet(env, w, NewLoc(env, c.caller, spec.name, c.drawn));
      CreateEffect(env, w.stores, c.caller, spec, c.drawn, f.create);
      if CreateKey(env, w.stores, c.caller, spec, c.drawn, f.create).reply.Ok? {
        RotateEffect(env, w.stores, c.id, c.caller, c.drawn, f);
        var key := NewKey(c.caller, RotatedSpec(w.stores.rows[c.id]), c.drawn);
        TailPersists(env, w, c.id, key, RowLoc(env, key), f, Effect(env, w.stores, c));
      }
    }
  }

  lemma CreatePersists(env: Env, w: World, c: Command)
    requires WellKept(env, w) && Unused(env, w, c) && c.Create?
    ensures Persists(env, w, Effect(env, w.stores, c).stores, {})
  {
    CreateEffect(env, w.stores, c.caller, c.spec, c.drawn, c.createFaults);
    var loc := NewLoc(env, c.caller, c.spec.name, c.drawn);
    var after := Effect(env, w.stores, c).stores;
    assert after.rows in {w.stores.rows, w.stores.rows[c.drawn.id := NewKey(c.caller, c.spec, c.drawn)]};
    assert after.priv <= w.stores.priv + {loc} && after.pub <= w.stores.pub + {loc};
  }

  lemma DeletePersists(env: Env, w: World, c: Command)
    requires WellKept(env, w) && c.Delete?
    ensures var after := Effect(env, w.stores, c).stores;
            && Persists(env, w, after, {c.id})
            && (c.id in w.stores.rows && c.id !in after.rows ==>
                  DestroyKey(w.stores, RowLoc(env, w.stores.rows[c.id]), c.deleteFaults.destroy).ok)
  {
    var after := Effect(env, w.stores, c).stores;
    assert after.rows in {w.stores.rows, w.stores.rows - {c.id}};
    assert after.priv <= w.stores.priv && after.pub <= w.stores.pub;
  }

  /** Only DeleteKey takes a row away that an earlier command left, and only after the token
      destroyed one of its objects. */
  lemma CommandPersists(env: Env, w: World, c: Command)
    requires WellKept(env, w) && Unused(env, w, c)
    ensures Persists(env, w, Exec(env, w, c).stores, if c.Delete? then {c.id} else {})
    ensures c.Delete? && c.id in w.stores.rows && c.id !in Exec(env, w, c).stores.rows ==>
              DestroyKey(w.stores, RowLoc(env, w.stores.rows[c.id]), c.deleteFaults.destroy).ok
  {
    assert Exec(env, w, c).stores == Effect(env, w.stores, c).stores;
    if c.Create? { CreatePersists(env, w, c); }
    else if c.Rotate? { RotatePersists(env, w, c); }
    else { DeletePersists(env, w, c); }
  }

  /** An id that was handed out and can no longer sign. */
  ghost predicate Retired(env: Env, w: World, id: string) {
    id in w.ledger.ids
    && (id !in w.stores.rows || !w.stores.rows[id].isActive || RowLoc(env, w.stores.rows[id]) !in w.stores.priv)
  }

  /** A row whose key objects are both gone. */
  ghost predicate Hollow(env: Env, w: World, id: string) {
    id in w.stores.rows
    && RowLoc(env, w.stores.rows[id]) !in w.stores.priv && RowLoc(env, w.stores.rows[id]) !in w.stores.pub
  }

  lemma RotationRetires(env: Env, w: World, c: Command)
    requires Inv(env, w) && c.Rotate? && Unused(env, w, c) && Effect(env, w.stores, c).reply.Ok?
    ensures Retired(env, Exec(env, w, c), c.id)
    ensures !Retired(env, Exec(env, w, c), c.drawn.id)
  {
  }

  /** A DeleteKey that gets past its lookups retires the id exactly when the token destroys an
      object and either the row goes, too, or that object was the private one. */
  lemma DeletionRetiresExactly(env: Env, w: World, c: Command)
    requires Inv(env, w) && c.Delete? && c.id in w.stores.rows && w.stores.rows[c.id].tenantId == c.tenantId
    requires !c.deleteFaults.find && !c.deleteFaults.tenant && !c.deleteFaults.slot
    ensures var f := c.deleteFaults;
            Retired(env, Exec(env, w, c), c.id) <==>
              || Retired(env, w, c.id)
              || (Destroys(w.stores, RowLoc(env, w.stores.rows[c.id]), f.destroy) && (!f.row || !f.destroy.privSearch))
  {
  }

  /** Once retired, no later SignHash with that id succeeds, for any tenant, whatever happens
      in between. */
  lemma {:induction false} RetiredKeysNeverSignAgain(env: Env, w: World, cs: seq<Command>, id: string,
                                                     tenantId: string, hash: seq<bv8>, f: SignFaults)
    requires Inv(env, w) && UnusedRun(env, w, cs) && Retired(env, w, id)
    ensures SignHash(env, Run(env, w, cs).stores, id, tenantId, hash, f).Err?
    decreases |cs|
  {
    if cs != [] {
      StoresAgreeUnlessACallFailed(env, w, [cs[0]]);
      assert Run(env, w, [cs[0]]) == Exec(env, w, cs[0]) by { assert [cs[0]][1..] == []; }
      CommandPersists(env, w, cs[0]);
      RetiredKeysNeverSignAgain(env, Exec(env, w, cs[0]), cs[1..], id, tenantId, hash, f);
    }
  }

  ghost predicate RowsFollow(env: Env, w: World, after: Stores) {
    forall id :: id in after.rows && RowLoc(env, after.rows[id]) in w.ledger.locs ==>
      id in w.stores.rows && RowLoc(env, w.stores.rows[id]) == RowLoc(env, after.rows[id])
  }

  lemma {:induction false} RowsFollowAnyRun(env: Env, w: World, cs: seq<Command>)
    requires Inv(env, w) && UnusedRun(env, w, cs)
    ensures Inv(env, Run(env, w, cs)) && RowsFollow(env, w, Run(env, w, cs).stores)
    decreases |cs|
  {
    if cs != [] {
      var next := Exec(env, w, cs[0]);
      StoresAgreeUnlessACallFailed(env, w, [cs[0]]);
      assert Run(env, w, [cs[0]]) == next by { assert [cs[0]][1..] == []; }
      CommandPersists(env, w, cs[0]);
      RowsFollowAnyRun(env, next, cs[1..]);
      assert w.ledger.locs <= next.ledger.locs;
      forall id | id in Run(env, w, cs).stores.rows && RowLoc(env, Run(env, w, cs).stores.rows[id]) in w.ledger.locs
        ensures id in w.stores.rows && RowLoc(env, w.stores.rows[id]) == RowLoc(env, Run(env, w, cs).stores.rows[id])
      {
        assert id in next.stores.rows;
      }
    }
  }

  /** A signature made now, checked after any further commands with any id, tenant and hash:
      an answer that is no error is yes exactly for the id and the hash that were signed. */
  lemma SignaturesVerifyExactly(env: Env, w: World, cs: seq<Command>, id: string, tenantId: string, hash: seq<bv8>, f: SignFaults,
                                otherId: string, otherTenant: string, otherHash: seq<bv8>, g: SignFaults)
    requires Inv(env, w) && UnusedRun(env, w, cs) && SignHash(env, w.stores, id, tenantId, hash, f).Ok?
    ensures var signature := SignHash(env, w.stores, id, tenantId, hash, f).value;
            var answer := VerifyHashSignature(env, Run(env, w, cs).stores, otherId, otherTenant, otherHash, signature, g);
            answer.Ok? ==> (answer.value <==> otherId == id && otherHash == hash)
  {
    RowsFollowAnyRun(env, w, cs);
    SignedExactlyBy(env, w, id, tenantId, hash, f);
    var after := Run(env, w, cs).stores;
    if otherId == id && id in after.rows {
      RowsStayPut(env, w, cs, id);
    }
  }

  lemma {:induction false} RowsStayPut(env: Env, w: World, cs: seq<Command>, id: string)
    requires Inv(env, w) && UnusedRun(env, w, cs) && id in w.ledger.ids && id in Run(env, w, cs).stores.rows
    ensures id in w.stores.rows
    ensures RowLoc(env, Run(env, w, cs).stores.rows[id]) == RowLoc(env, w.stores.rows[id])
    ensures Run(env, w, cs).stores.rows[id].isActive ==> w.stores.rows[id].isActive
    decreases |cs|
  {
    if cs != [] {
      StoresAgreeUnlessACallFailed(env, w, [cs[0]]);
      assert Run(env, w, [cs[0]]) == Exec(env, w, cs[0]) by { assert [cs[0]][1..] == []; }
      CommandPersists(env, w, cs[0]);
      RowsStayPut(env, Exec(env, w, cs[0]), cs[1..], id);
    }
  }

  /** After a rotation or a completed deletion the signatures made before can no longer be
      checked: the gate for verifying asks for an active key, too. */
  lemma InactiveKeysVerifyNothing(env: Env, w: World, cs: seq<Command>, id: string, tenantId: string,
                                  hash: seq<bv8>, signature: Signature, f: SignFaults)
    requires Inv(env, w) && UnusedRun(env, w, cs)
    requires id in w.ledger.ids && (id in w.stores.rows ==> !w.stores.rows[id].isActive)
    ensures VerifyHashSignature(env, Run(env, w, cs).stores, id, tenantId, hash, signature, f).Err?
  {
    if id in Run(env, w, cs).stores.rows {
      RowsStayPut(env, w, cs, id);
    }
  }

  /** When DeleteKey succeeds; and without any failing call, exactly for the rows that are not
      hollow. */
  lemma DeleteSucceedsExactly(env: Env, w: World, id: string, f: DeleteFaults)
    requires Inv(env, w) && id in w.stores.rows
    ensures var ok := DeleteKey(env, w.stores, id, w.stores.rows[id].tenantId, f).reply.Ok?;
            && (ok <==> !f.find && !f.tenant && !f.slot && !f.row
                        && Destroys(w.stores, RowLoc(env, w.stores.rows[id]), f.destroy))
            && (!f.find && !f.tenant && !f.slot && !f.row && Clean(f.destroy) && !f.destroy.pubSearch ==>
                  (ok <==> !Hollow(env, w, id)))
  {
  }

  /** Which objects and rows a deletion takes away: never both objects, and none under another
      label; and which error it reports. */
  lemma DeleteTakesExactly(env: Env, w: World, id: string, f: DeleteFaults)
    requires Inv(env, w) && id in w.stores.rows
    ensures var s, loc := w.stores, RowLoc(env, w.stores.rows[id]);
            var o := DeleteKey(env, s, id, s.rows[id].tenantId, f);
            var destroys := !f.find && !f.tenant && !f.slot && Destroys(s, loc, f.destroy);
            var private := !f.destroy.privSearch && loc in s.priv;
            && o.stores.priv == (if destroys && private then s.priv - {loc} else s.priv)
            && o.stores.pub == (if destroys && !private then s.pub - {loc} else s.pub)
            && o.stores.rows == (if destroys && !f.row then s.rows - {id} else s.rows)
            && (o.reply == Err(KeyNotFound) <==> f.find)
            && (o.reply == Err(TenantNotFound) <==> !f.find && f.tenant)
            && (o.reply == Err(SlotNotFound) <==> !f.find && !f.tenant && f.slot)
            && (o.reply == Err(HsmFailed) <==> !f.find && !f.tenant && !f.slot && !destroys)
            && (o.reply == Err(DeleteFailed) <==> destroys && f.row)
  {
  }

  /** A row whose two objects are gone (a deletion whose row delete failed, repeated, gets
      there) stays for ever: every later DeleteKey fails at the token, before the row. */
  lemma {:induction false} HollowRowsAreNeverRemoved(env: Env, w: World, cs: seq<Command>, id: string)
    requires Inv(env, w) && UnusedRun(env, w, cs) && Hollow(env, w, id)
    ensures Hollow(env, Run(env, w, cs), id)
    ensures forall f: DeleteFaults, tenantId :: DeleteKey(env, Run(env, w, cs).stores, id, tenantId, f).reply.Err?
    decreases |cs|
  {
    if cs != [] {
      StoresAgreeUnlessACallFailed(env, w, [cs[0]]);
      assert Run(env, w, [cs[0]]) == Exec(env, w, cs[0]) by { assert [cs[0]][1..] == []; }
      CommandPersists(env, w, cs[0]);
      HollowRowsAreNeverRemoved(env, Exec(env, w, cs[0]), cs[1..], id);
    }
  }

  /** Two deletions whose row deletes fail are enough to get there. */
  lemma TwoHalfDeletionsHollowTheRow(env: Env, w: World, id: string, first: DeleteFaults, second: DeleteFaults)
    requires Inv(env, w) && id in w.stores.rows
    requires RowLoc(env, w.stores.rows[id]) in w.stores.priv * w.stores.pub
    requires forall f :: f in {first, second} ==>
               f.row && Clean(f.destroy) && !f.destroy.pubSearch && !f.find && !f.tenant && !f.slot
    ensures var tenantId := w.stores.rows[id].tenantId;
            Hollow(env, Exec(env, Exec(env, w, Delete(id, tenantId, first)), Delete(id, tenantId, second)), id)
  {
  }
}
