// Runs of the key service: any sequence of create, rotate and delete requests, with any
// calls failing. A ledger remembers what the stores themselves forget.
module KeyRuns {
  import opened Wrappers
  import opened KeyStores
  import opened KeyLifecycle

  datatype Ledger = Ledger(ids: set<string>, locs: set<Loc>, failed: set<Loc>, fellBack: set<Loc>)

  datatype World = World(stores: Stores, ledger: Ledger)

  datatype Command =
    | Create(caller: Caller, spec: KeySpec, drawn: Drawn, createFaults: CreateFaults)
    | Rotate(id: string, caller: Caller, drawn: Drawn, rotateFaults: RotateFaults)
    | Delete(id: string, tenantId: string, deleteFaults: DeleteFaults)

  /** Where the command puts a new key object, if it gets that far. */
  function Target(env: Env, s: Stores, c: Command): Option<(string, Loc)> {
    match c
    case Create(caller, spec, drawn, f) => Some((drawn.id, NewLoc(env, caller, spec.name, drawn)))
    case Rotate(id, caller, drawn, f) =>
      (match FindRow(s.rows, id, caller.tenantId, f.find)
       case None => None
       case Some(existing) => Some((drawn.id, NewLoc(env, caller, RotatedSpec(existing).name, drawn))))
    case Delete(_, _, _) => None
  }

  function Effect(env: Env, s: Stores, c: Command): Outcome {
    match c
    case Create(caller, spec, drawn, f) => CreateKey(env, s, caller, spec, drawn, f)
    case Rotate(id, caller, drawn, f) => RotateKey(env, s, id, caller, drawn, f)
    case Delete(id, tenantId, f) => DeleteKey(env, s, id, tenantId, f)
  }

  /** The UUIDs drawn for the command were never drawn before. */
  predicate Unused(env: Env, w: World, c: Command) {
    var t := Target(env, w.stores, c);
    t.Some? ==> t.value.0 !in w.ledger.ids && t.value.1 !in w.ledger.locs
  }

  function Exec(env: Env, w: World, c: Command): World {
    var t := Target(env, w.stores, c);
    var o := Effect(env, w.stores, c);
    World(o.stores,
          Ledger(w.ledger.ids + (if t.Some? then {t.value.0} else {}),
                 w.ledger.locs + (if t.Some? then {t.value.1} else {}),
                 w.ledger.failed + o.failed,
                 w.ledger.fellBack + o.fellBack))
  }

  function Run(env: Env, w: World, cs: seq<Command>): World
    decreases |cs|
  {
    if cs == [] then w else Run(env, Exec(env, w, cs[0]), cs[1..])
  }

  predicate UnusedRun(env: Env, w: World, cs: seq<Command>)
    decreases |cs|
  {
    cs == [] || (Unused(env, w, cs[0]) && UnusedRun(env, Exec(env, w, cs[0]), cs[1..]))
  }

  const EMPTY := World(Stores({}, {}, map[]), Ledger({}, {}, {}, {}))

  // ----- the invariant -----------------------------------------------------

  ghost predicate RowOk(env: Env, l: Ledger, id: string, k: Key) {
    k.id == id && id in l.ids && k.keyHandle == k.keyLabel && k.tenantId in env.slots && RowLoc(env, k) in l.locs
  }

  ghost predicate OneRowPerLoc(env: Env, rows: map<string, Key>) {
    forall i, j :: i in rows && j in rows && RowLoc(env, rows[i]) == RowLoc(env, rows[j]) ==> i == j
  }

  /** The part of the invariant that no failure can break. */
  ghost predicate WellKept(env: Env, w: World) {
    && w.stores.priv <= w.ledger.locs
    && w.stores.pub <= w.ledger.locs
    && (forall id :: id in w.stores.rows ==> RowOk(env, w.ledger, id, w.stores.rows[id]))
    && OneRowPerLoc(env, w.stores.rows)
  }

  /** The two stores agree about `loc`: a private object exists exactly if a row names it. */
  ghost predicate Agree(env: Env, s: Stores, loc: Loc) {
    loc in s.priv <==> loc in Recorded(env, s.rows)
  }

  ghost predicate Inv(env: Env, w: World) {
    WellKept(env, w)
    && forall loc :: loc !in w.ledger.failed + w.ledger.fellBack ==> Agree(env, w.stores, loc)
  }

  /** Empty stores are in the invariant, whatever the tenants' slots are. */
  lemma EmptyStoresMeetInv(env: Env)
    ensures Inv(env, EMPTY)
  {
  }

  // ----- how the set of recorded locations moves ----------------------------

  lemma RecordedAfterSave(env: Env, rows: map<string, Key>, k: Key)
    requires k.id !in rows || RowLoc(env, rows[k.id]) == RowLoc(env, k)
    ensures Recorded(env, rows[k.id := k]) == Recorded(env, rows) + {RowLoc(env, k)}
  {
    var after := rows[k.id := k];
    forall loc | loc in Recorded(env, rows) ensures loc in Recorded(env, after) {
      var id :| id in rows && RowLoc(env, rows[id]) == loc;
      assert id in after && RowLoc(env, after[id]) == loc;
    }
    assert k.id in after && RowLoc(env, after[k.id]) == RowLoc(env, k);
  }

  lemma RecordedAfterDelete(env: Env, rows: map<string, Key>, id: string)
    requires id in rows
    requires OneRowPerLoc(env, rows)
    ensures Recorded(env, rows - {id}) == Recorded(env, rows) - {RowLoc(env, rows[id])}
  {
    var after := rows - {id};
    forall loc | loc in Recorded(env, rows) && loc != RowLoc(env, rows[id]) ensures loc in Recorded(env, after) {
      var i :| i in rows && RowLoc(env, rows[i]) == loc;
      assert i in after && after[i] == rows[i];
    }
  }

  // ----- one command ---------------------------------------------------------

  /** A created key: what changed, whatever failed. */
  lemma CreateEffect(env: Env, s: Stores, caller: Caller, spec: KeySpec, drawn: Drawn, f: CreateFaults)
    requires drawn.id !in s.rows
    requires var loc := NewLoc(env, caller, spec.name, drawn); loc !in s.priv && loc !in s.pub
    ensures var o := CreateKey(env, s, caller, spec, drawn, f);
            var loc := NewLoc(env, caller, spec.name, drawn);
            var key := NewKey(caller, spec, drawn);
            && (o.reply.Ok? ==>
                  && o.reply == Ok(key) && caller.tenantId in env.slots && RowLoc(env, key) == loc
                  && Validate(key) && o.failed == {} && o.fellBack == {}
                  && o.stores == Stores(s.priv + {loc}, s.pub + {loc}, s.rows[key.id := key]))
            && (o.reply.Err? ==>
                  && o.stores.rows == s.rows
                  && s.priv <= o.stores.priv <= s.priv + {loc}
                  && s.pub <= o.stores.pub <= s.pub + {loc}
                  && (o.stores.priv == s.priv || loc in o.failed + o.fellBack)
                  && o.failed + o.fellBack <= {loc})
  {
  }

  lemma CreateKeepsInv(env: Env, w: World, c: Command)
    requires Inv(env, w) && c.Create? && Unused(env, w, c)
    ensures Inv(env, Exec(env, w, c))
  {
    CreateEffect(env, w.stores, c.caller, c.spec, c.drawn, c.createFaults);
    var key := NewKey(c.caller, c.spec, c.drawn);
    RecordedAfterSave(env, w.stores.rows, key);
    assert RowLoc(env, key) == NewLoc(env, c.caller, c.spec.name, c.drawn);
    NotRecordedYet(env, w, NewLoc(env, c.caller, c.spec.name, c.drawn));
    AgreementKept(env, w, Exec(env, w, c));
  }

  /** To keep the agreement it is enough to look at the locations that were in agreement. */
  lemma AgreementKept(env: Env, w: World, w': World)
    requires Inv(env, w) && WellKept(env, w')
    requires w.ledger.failed + w.ledger.fellBack <= w'.ledger.failed + w'.ledger.fellBack
    requires forall loc :: loc !in w'.ledger.failed + w'.ledger.fellBack && Agree(env, w.stores, loc) ==> Agree(env, w'.stores, loc)
    ensures Inv(env, w')
  {
  }

  lemma NotRecordedYet(env: Env, w: World, loc: Loc)
    requires WellKept(env, w) && loc !in w.ledger.locs
    ensures loc !in Recorded(env, w.stores.rows) && loc !in w.stores.priv && loc !in w.stores.pub
    ensures forall id :: id in w.stores.rows ==> RowLoc(env, w.stores.rows[id]) != loc
  {
  }

  /** A rotation of row `id` that got past CreateKey and put `key` at `loc`: what it changed,
      whatever failed after that. */
  ghost predicate RotateTail(env: Env, s: Stores, id: string, key: Key, loc: Loc, f: RotateFaults, o: Outcome)
    requires id in s.rows
  {
    var created := s.rows[key.id := key];
    && (o.reply.Ok? ==>
          && env.mode.Upsert? && o.reply == Ok(key) && o.failed == {} && o.fellBack == {}
          && o.stores == Stores(s.priv + {loc}, s.pub + {loc}, created[id := Loaded(s.rows[id]).(isActive := false)]))
    && (o.reply == Err(TenantNotFound) || o.reply == Err(SlotNotFound) ==>
          && o.stores == Stores(s.priv + {loc}, s.pub + {loc}, created)
          && o.failed == {} && o.fellBack == {})
    && (o.reply.Err? && o.reply.error != TenantNotFound && o.reply.error != SlotNotFound ==>
          && o.reply.error == SaveFailed
          && o.stores.priv == (if Clean(f.undo) then s.priv else s.priv + {loc})
          && s.pub <= o.stores.pub <= s.pub + {loc}
          && o.stores.rows == (if f.undoRow then created else s.rows)
          && o.failed + o.fellBack <= {loc}
          && ((Clean(f.undo) && !f.undoRow) || loc in o.failed + o.fellBack))
  }

  lemma RotateEffect(env: Env, s: Stores, id: string, caller: Caller, drawn: Drawn, f: RotateFaults)
    requires id in s.rows && s.rows[id].id == id && s.rows[id].tenantId == caller.tenantId && !f.find
    requires drawn.id !in s.rows
    requires var loc := NewLoc(env, caller, s.rows[id].name + "-rotated", drawn); loc !in s.priv && loc !in s.pub
    requires CreateKey(env, s, caller, RotatedSpec(Loaded(s.rows[id])), drawn, f.create).reply.Ok?
    ensures var key := NewKey(caller, RotatedSpec(s.rows[id]), drawn);
            && RowLoc(env, key) == NewLoc(env, caller, key.name, drawn)
            && caller.tenantId in env.slots
            && RotateTail(env, s, id, key, RowLoc(env, key), f, RotateKey(env, s, id, caller, drawn, f))
  {
  }

  lemma RotateKeepsInv(env: Env, w: World, c: Command)
    requires Inv(env, w) && c.Rotate? && Unused(env, w, c)
    ensures Inv(env, Exec(env, w, c))
  {
    var s := w.stores;
    if FindRow(s.rows, c.id, c.caller.tenantId, c.rotateFaults.find).Some? {
      var create := Create(c.caller, RotatedSpec(Loaded(s.rows[c.id])), c.drawn, c.rotateFaults.create);
      if Effect(env, s, create).reply.Err? {
        CreateKeepsInv(env, w, create);
        assert Exec(env, w, c) == Exec(env, w, create);
      } else {
        RotateEffect(env, s, c.id, c.caller, c.drawn, c.rotateFaults);
        var key := NewKey(c.caller, RotatedSpec(s.rows[c.id]), c.drawn);
        RotateTailKeepsInv(env, w, c.id, key, RowLoc(env, key), c.rotateFaults, Effect(env, s, c));
      }
    }
  }

  lemma RotateTailKeepsInv(env: Env, w: World, id: string, key: Key, loc: Loc, f: RotateFaults, o: Outcome)
    requires Inv(env, w) && id in w.stores.rows && key.id !in w.ledger.ids && loc !in w.ledger.locs
    requires RowLoc(env, key) == loc && key.keyHandle == key.keyLabel && key.tenantId in env.slots
    requires RotateTail(env, w.stores, id, key, loc, f, o)
    ensures Inv(env, World(o.stores, Ledger(w.ledger.ids + {key.id}, w.ledger.locs + {loc},
                                            w.ledger.failed + o.failed, w.ledger.fellBack + o.fellBack)))
  {
    var s := w.stores;
    var saved := Loaded(s.rows[id]).(isActive := false);
    var w' := World(o.stores, Ledger(w.ledger.ids + {key.id}, w.ledger.locs + {loc},
                                     w.ledger.failed + o.failed, w.ledger.fellBack + o.fellBack));
    RowAdded(env, w, key, loc);
    RowReplaced(env, World(s.(rows := s.rows[key.id := key]), w'.ledger), id, saved);
    assert RowsKept(env, w') by {
      assert o.stores.rows in {s.rows, s.rows[key.id := key], s.rows[key.id := key][id := saved]};
    }
    forall x | x !in w'.ledger.failed + w'.ledger.fellBack && Agree(env, s, x) ensures Agree(env, o.stores, x) {
      RotateTailAgrees(env, w, id, key, loc, f, o, x);
    }
    AgreementKept(env, w, w');
  }

  lemma RotateTailAgrees(env: Env, w: World, id: string, key: Key, loc: Loc, f: RotateFaults, o: Outcome, x: Loc)
    requires WellKept(env, w) && id in w.stores.rows && key.id !in w.ledger.ids && loc !in w.ledger.locs
    requires RowLoc(env, key) == loc && key.keyHandle == key.keyLabel && key.tenantId in env.slots
    requires RotateTail(env, w.stores, id, key, loc, f, o)
    requires Agree(env, w.stores, x) && x !in o.failed + o.fellBack
    ensures Agree(env, o.stores, x)
  {
    var s := w.stores;
    var saved := Loaded(s.rows[id]).(isActive := false);
    NotRecordedYet(env, w, loc);
    RecordedAfterSave(env, s.rows, key);
    assert RowLoc(env, saved) in Recorded(env, s.rows) by { assert id in s.rows && RowLoc(env, s.rows[id]) == RowLoc(env, saved); }
    RecordedAfterSave(env, s.rows[key.id := key], saved);
  }

  ghost predicate RowsKept(env: Env, w: World) {
    (forall id :: id in w.stores.rows ==> RowOk(env, w.ledger, id, w.stores.rows[id])) && OneRowPerLoc(env, w.stores.rows)
  }

  lemma RowAdded(env: Env, w: World, key: Key, loc: Loc)
    requires WellKept(env, w) && key.id !in w.ledger.ids && loc !in w.ledger.locs
    requires RowLoc(env, key) == loc && key.keyHandle == key.keyLabel && key.tenantId in env.slots
    ensures var rows := w.stores.rows[key.id := key];
            && RowsKept(env, World(w.stores.(rows := rows), w.ledger.(ids := w.ledger.ids + {key.id}, locs := w.ledger.locs + {loc})))
            && Recorded(env, rows) == Recorded(env, w.stores.rows) + {loc}
  {
    NotRecordedYet(env, w, loc);
    RecordedAfterSave(env, w.stores.rows, key);
  }

  lemma RowReplaced(env: Env, w: World, id: string, saved: Key)
    requires RowsKept(env, w) && id in w.stores.rows && RowOk(env, w.ledger, id, saved)
    requires RowLoc(env, w.stores.rows[id]) == RowLoc(env, saved)
    ensures RowsKept(env, World(w.stores.(rows := w.stores.rows[id := saved]), w.ledger))
    ensures Recorded(env, w.stores.rows[id := saved]) == Recorded(env, w.stores.rows)
  {
    RecordedAfterSave(env, w.stores.rows, saved);
    assert RowLoc(env, saved) in Recorded(env, w.stores.rows) by { assert id in w.stores.rows; }
  }

  lemma DeleteKeepsInv(env: Env, w: World, c: Command)
    requires Inv(env, w) && c.Delete?
    ensures Inv(env, Exec(env, w, c))
  {
    if c.id in w.stores.rows {
      var w' := Exec(env, w, c);
      assert WellKept(env, w') by {
        assert w'.stores.rows == w.stores.rows || w'.stores.rows == w.stores.rows - {c.id};
      }
      forall x | x !in w'.ledger.failed + w'.ledger.fellBack && Agree(env, w.stores, x) ensures Agree(env, w'.stores, x) {
        DeleteAgrees(env, w, c, x);
      }
      AgreementKept(env, w, w');
    }
  }

  lemma DeleteAgrees(env: Env, w: World, c: Command, x: Loc)
    requires WellKept(env, w) && c.Delete? && c.id in w.stores.rows
    requires var o := Effect(env, w.stores, c); x !in o.failed + o.fellBack
    requires Agree(env, w.stores, x)
    ensures Agree(env, Effect(env, w.stores, c).stores, x)
  {
    RecordedAfterDelete(env, w.stores.rows, c.id);
  }

  /** Over every run with any calls failing: at a location where the two stores disagree, a
      destroying or compensating call for that very location failed, or it succeeded on the
      public object because the search for the private one had failed. */
  lemma {:induction false} StoresAgreeUnlessACallFailed(env: Env, w: World, cs: seq<Command>)
    requires Inv(env, w) && UnusedRun(env, w, cs)
    ensures Inv(env, Run(env, w, cs))
    decreases |cs|
  {
    if cs != [] {
      match cs[0] {
        case Create(_, _, _, _) => CreateKeepsInv(env, w, cs[0]);
        case Rotate(_, _, _, _) => RotateKeepsInv(env, w, cs[0]);
        case Delete(_, _, _) => DeleteKeepsInv(env, w, cs[0]);
      }
      StoresAgreeUnlessACallFailed(env, Exec(env, w, cs[0]), cs[1..]);
    }
  }
}
