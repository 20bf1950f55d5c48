// Start-up: read all stored slots, and for each recover its PIN, find the token's present slot
// number, open a client there and register it.
module SlotBootstrap {
  import opened Wrappers
  import opened GoSlices
  import opened AesGcm
  import opened KeyManagers
  import opened SlotLabels
  import opened SlotVault
  import opened Tokens

  // ----- reading the slots ---------------------------------------------------------------

  datatype Listed = Listed(id: string, row: SlotRow)

  /** The order in which the query happens to give the rows. */
  ghost predicate Lists(t: Tables, order: seq<string>) {
    && (forall id :: id in order <==> id in t.slots)
    && (forall i, j :: 0 <= i < j < |order| ==> order[i] != order[j])
  }

  /** The metadata column is scanned into a plain string: the first row that points nowhere makes
      the whole query fail. */
  function ReadRows(t: Tables, order: seq<string>): Option<seq<Listed>>
    requires forall id :: id in order ==> id in t.slots
  {
    if order == [] then Some([])
    else
      var front, id := order[..|order| - 1], order[|order| - 1];
      var rows := ReadRows(t, front);
      if rows.None? || t.slots[id].keyMetadataId.None? then None else Some(rows.value + [Listed(id, t.slots[id])])
  }

  function GetAllSlots(t: Tables, order: seq<string>, fails: bool): Option<seq<Listed>>
    requires Lists(t, order)
  {
    if fails then None else ReadRows(t, order)
  }

  predicate AllRowsReadable(t: Tables) {
    forall id :: id in t.slots ==> t.slots[id].keyMetadataId.Some?
  }

  lemma {:induction false} ReadRowsExactly(t: Tables, order: seq<string>)
    requires forall id :: id in order ==> id in t.slots
    ensures var rows := ReadRows(t, order);
            && (rows.Some? <==> forall id :: id in order ==> t.slots[id].keyMetadataId.Some?)
            && (rows.Some? ==> |rows.value| == |order| && forall i :: 0 <= i < |order| ==> rows.value[i] == Listed(order[i], t.slots[order[i]]))
  {
    if order != [] {
      assert order == order[..|order| - 1] + [order[|order| - 1]];
      ReadRowsExactly(t, order[..|order| - 1]);
    }
  }

  // ----- one slot ------------------------------------------------------------------------

  /** A call of NewSoftHSMClient for a stored slot. */
  datatype Attempt = Attempt(slotId: string, number: nat, pin: seq<Byte>)

  /** What one visit finds: the token list at that moment (None if it cannot be read), and
      whether the metadata query, the number update and the building of the client fail. */
  datatype Look = Look(tokens: Option<seq<TokenSlot>>, metadata: bool, update: bool, client: bool)

  function NumberFor(row: SlotRow, tokens: Option<seq<TokenSlot>>): nat {
    if !row.temporary || tokens.None? then row.number
    else
      var found := SlotOfLabel(tokens.value, row.text);
      if found.None? then row.number else found.value
  }

  function AttemptFor(a: Aead, keys: Lookup, metas: map<string, MetaRow>, slot: Listed, look: Look): Option<Attempt> {
    var pin := RecoverPin(a, keys, slot.row, metas);
    if look.metadata || pin.Err? then None else Some(Attempt(slot.id, NumberFor(slot.row, look.tokens), pin.value))
  }

  /** A number resolved by label replaces the temporary one, if the table takes it. */
  function AfterInitialize(t: Tables, slot: Listed, look: Look): Tables {
    if slot.row.temporary && look.tokens.Some? && SlotOfLabel(look.tokens.value, slot.row.text).Some? && !look.update && slot.id in t.slots then
      t.(slots := t.slots[slot.id := t.slots[slot.id].(number := SlotOfLabel(look.tokens.value, slot.row.text).value, temporary := false)])
    else t
  }

  // ----- all slots -----------------------------------------------------------------------

  datatype BootError = SlotsUnreadable | NoClients

  /** `calls` are the clients that were tried, `registry` those that serve a slot number. */
  datatype Booted = Booted(tables: Tables, calls: seq<Attempt>, registry: map<nat, Attempt>, error: Option<BootError>)

  /** The visits to `slots`, as far as they have gone. */
  function Visited(a: Aead, keys: Lookup, t: Tables, slots: seq<Listed>, looks: seq<Look>): Booted
    requires |looks| >= |slots|
  {
    if slots == [] then Booted(t, [], map[], None)
    else
      var n := |slots| - 1;
      var b := Visited(a, keys, t, slots[..n], looks);
      var one := AttemptFor(a, keys, t.metas, slots[n], looks[n]);
      if one.None? then b
      else Booted(AfterInitialize(b.tables, slots[n], looks[n]), b.calls + [one.value],
                  if looks[n].client then b.registry else b.registry[one.value.number := one.value], None)
  }

  function Bootstrap(a: Aead, keys: Lookup, t: Tables, order: seq<string>, looks: seq<Look>, fails: bool): Booted
    requires Lists(t, order) && |looks| >= |order|
  {
    var slots := GetAllSlots(t, order, fails);
    if slots.None? then Booted(t, [], map[], Some(SlotsUnreadable))
    else
      ReadRowsExactly(t, order);
      var b := Visited(a, keys, t, slots.value, looks);
      b.(error := if b.registry == map[] then Some(NoClients) else None)
  }

  /** Clients are tried in the order of the rows: a longer list adds its calls at the end. */
  lemma {:induction false} CallsFollowTheRows(a: Aead, keys: Lookup, t: Tables, slots: seq<Listed>, looks: seq<Look>, i: nat)
    requires i <= |slots| <= |looks|
    ensures Visited(a, keys, t, slots[..i], looks).calls <= Visited(a, keys, t, slots, looks).calls
    decreases |slots|
  {
    if i < |slots| {
      CallsFollowTheRows(a, keys, t, slots[..|slots| - 1], looks, i);
      assert slots[..|slots| - 1][..i] == slots[..i];
    } else {
      assert slots[..i] == slots;
    }
  }

  lemma {:induction false} CallsAreTheAttempts(a: Aead, keys: Lookup, t: Tables, slots: seq<Listed>, looks: seq<Look>, x: Attempt)
    requires |looks| >= |slots|
    ensures x in Visited(a, keys, t, slots, looks).calls <==>
              exists i :: 0 <= i < |slots| && AttemptFor(a, keys, t.metas, slots[i], looks[i]) == Some(x)
  {
    if slots != [] {
      var n := |slots| - 1;
      CallsAreTheAttempts(a, keys, t, slots[..n], looks, x);
      if i :| 0 <= i < n && AttemptFor(a, keys, t.metas, slots[..n][i], looks[i]) == Some(x) {
        assert AttemptFor(a, keys, t.metas, slots[i], looks[i]) == Some(x);
      }
      if i :| 0 <= i < n && AttemptFor(a, keys, t.metas, slots[i], looks[i]) == Some(x) {
        assert AttemptFor(a, keys, t.metas, slots[..n][i], looks[i]) == Some(x);
      }
    }
  }

  /** Visit `i` built a client on slot number `number`. */
  ghost predicate BuiltOn(a: Aead, keys: Lookup, t: Tables, slots: seq<Listed>, looks: seq<Look>, i: int, number: nat)
    requires |looks| >= |slots|
  {
    0 <= i < |slots| && !looks[i].client
    && AttemptFor(a, keys, t.metas, slots[i], looks[i]).Some?
    && AttemptFor(a, keys, t.metas, slots[i], looks[i]).value.number == number
  }

  lemma LastVisit(a: Aead, keys: Lookup, t: Tables, slots: seq<Listed>, looks: seq<Look>, number: nat)
    requires slots != [] && |looks| >= |slots|
    ensures var n := |slots| - 1;
            var registry, front := Visited(a, keys, t, slots, looks).registry, Visited(a, keys, t, slots[..n], looks).registry;
            if BuiltOn(a, keys, t, slots, looks, n, number)
            then number in registry && Some(registry[number]) == AttemptFor(a, keys, t.metas, slots[n], looks[n])
            else (number in registry <==> number in front) && (number in front ==> registry[number] == front[number])
  {
  }

  lemma BuiltOnInFront(a: Aead, keys: Lookup, t: Tables, slots: seq<Listed>, looks: seq<Look>, i: nat, number: nat)
    requires i < |slots| - 1 && |looks| >= |slots|
    ensures BuiltOn(a, keys, t, slots[..|slots| - 1], looks, i, number) <==> BuiltOn(a, keys, t, slots, looks, i, number)
  {
    assert slots[..|slots| - 1][i] == slots[i];
  }

  /** A slot number is served exactly if some visit built a client on it. */
  lemma {:induction false} ServedExactly(a: Aead, keys: Lookup, t: Tables, slots: seq<Listed>, looks: seq<Look>, number: nat)
    requires |looks| >= |slots|
    ensures number in Visited(a, keys, t, slots, looks).registry <==> exists i :: BuiltOn(a, keys, t, slots, looks, i, number)
  {
    if slots != [] {
      var n := |slots| - 1;
      LastVisit(a, keys, t, slots, looks, number);
      ServedExactly(a, keys, t, slots[..n], looks, number);
      if i :| BuiltOn(a, keys, t, slots[..n], looks, i, number) {
        BuiltOnInFront(a, keys, t, slots, looks, i, number);
      }
      if i :| BuiltOn(a, keys, t, slots, looks, i, number) && i < n {
        BuiltOnInFront(a, keys, t, slots, looks, i, number);
      }
    }
  }

  /** It is served by the last of them: slots that resolve to one number push each other out. */
  lemma {:induction false} LastClientServes(a: Aead, keys: Lookup, t: Tables, slots: seq<Listed>, looks: seq<Look>, i: nat, number: nat)
    requires |looks| >= |slots| && BuiltOn(a, keys, t, slots, looks, i, number)
    requires forall j :: i < j < |slots| ==> !BuiltOn(a, keys, t, slots, looks, j, number)
    ensures var registry := Visited(a, keys, t, slots, looks).registry;
            number in registry && Some(registry[number]) == AttemptFor(a, keys, t.metas, slots[i], looks[i])
  {
    var n := |slots| - 1;
    LastVisit(a, keys, t, slots, looks, number);
    if i < n {
      BuiltOnInFront(a, keys, t, slots, looks, i, number);
      forall j | i < j < n ensures !BuiltOn(a, keys, t, slots[..n], looks, j, number) {
        BuiltOnInFront(a, keys, t, slots, looks, j, number);
      }
      LastClientServes(a, keys, t, slots[..n], looks, i, number);
    }
  }

  /** A client that was built stays in charge of its number exactly if no later visit built one
      on the same number. */
  lemma ClientStaysExactly(a: Aead, keys: Lookup, t: Tables, slots: seq<Listed>, looks: seq<Look>, i: nat, number: nat)
    requires |looks| >= |slots| && BuiltOn(a, keys, t, slots, looks, i, number)
    requires forall j, k :: 0 <= j < k < |slots| ==> slots[j].id != slots[k].id
    ensures var registry := Visited(a, keys, t, slots, looks).registry;
            number in registry
            && (registry[number].slotId == slots[i].id <==> forall j :: i < j < |slots| ==> !BuiltOn(a, keys, t, slots, looks, j, number))
  {
    var last := LastBuilt(a, keys, t, slots, looks, i, number);
    LastClientServes(a, keys, t, slots, looks, last, number);
  }

  lemma {:induction false} LastBuilt(a: Aead, keys: Lookup, t: Tables, slots: seq<Listed>, looks: seq<Look>, i: nat, number: nat) returns (last: nat)
    requires |looks| >= |slots| && BuiltOn(a, keys, t, slots, looks, i, number)
    ensures i <= last && BuiltOn(a, keys, t, slots, looks, last, number)
    ensures forall j :: last < j < |slots| ==> !BuiltOn(a, keys, t, slots, looks, j, number)
    decreases |slots| - i
  {
    if j :| i < j < |slots| && BuiltOn(a, keys, t, slots, looks, j, number) {
      last := LastBuilt(a, keys, t, slots, looks, j, number);
    } else {
      last := i;
    }
  }

  // ----- what stays in the tables ----------------------------------------------------------

  /** Rows stay, up to their number and whether it is temporary; metadata rows stay as they are. */
  ghost predicate Keeps(t: Tables, after: Tables) {
    && t.slots.Keys <= after.slots.Keys
    && (forall id :: id in t.slots ==>
          after.slots[id] == t.slots[id].(number := after.slots[id].number, temporary := after.slots[id].temporary))
    && (forall m :: m in t.metas ==> m in after.metas && after.metas[m] == t.metas[m])
  }

  lemma KeptPinsComeBack(a: Aead, keys: Lookup, t: Tables, after: Tables, id: string)
    requires Keeps(t, after) && id in t.slots && RecoverPin(a, keys, t.slots[id], t.metas) != Err(NoMetadata)
    ensures RecoverPin(a, keys, after.slots[id], after.metas) == RecoverPin(a, keys, t.slots[id], t.metas)
  {
  }

  lemma {:induction false} VisitsKeep(a: Aead, keys: Lookup, t: Tables, slots: seq<Listed>, looks: seq<Look>)
    requires |looks| >= |slots|
    ensures var after := Visited(a, keys, t, slots, looks).tables;
            Keeps(t, after) && after.slots.Keys == t.slots.Keys && after.metas == t.metas
  {
    if slots != [] {
      VisitsKeep(a, keys, t, slots[..|slots| - 1], looks);
    }
  }

  lemma CreationKeeps(a: Aead, keys: Lookup, masterId: string, t: Tables, q: Request, d: Draws, f: StoreFaults)
    requires IsGcm(a) && d.slotId !in t.slots
    ensures Keeps(t, CreateHSMSlot(a, keys, masterId, t, q, d, f).tables)
    ensures CreateHSMSlot(a, keys, masterId, t, q, d, f).tables.slots.Keys <= t.slots.Keys + {d.slotId}
  {
    CreateAddsBothRowsOrNone(a, keys, masterId, t, q, d, f);
    var after := CreateHSMSlot(a, keys, masterId, t, q, d, f).tables;
    assert after.slots == t.slots || after.slots - {d.slotId} == t.slots;
    assert after.metas == t.metas || after.metas - {d.metaId} == t.metas;
    forall id | id in t.slots ensures id in after.slots && after.slots[id] == t.slots[id] {
      assert id in after.slots || id in after.slots - {d.slotId};
    }
    forall m | m in t.metas ensures m in after.metas && after.metas[m] == t.metas[m] {
      assert m in after.metas || m in after.metas - {d.metaId};
    }
  }

  // ----- runs of creations and start-ups -----------------------------------------------------

  datatype Command =
    | Create(request: Request, draws: Draws, faults: StoreFaults)
    | Start(order: seq<string>, looks: seq<Look>, fails: bool)

  /** Slot ids drawn are new; a start-up reads the rows there are. */
  ghost predicate Allowed(t: Tables, c: Command) {
    match c
    case Create(_, d, _) => d.slotId !in t.slots
    case Start(order, looks, _) => Lists(t, order) && |looks| >= |order|
  }

  ghost function Exec(a: Aead, keys: Lookup, masterId: string, t: Tables, c: Command): Tables
    requires IsGcm(a) && Allowed(t, c)
  {
    match c
    case Create(q, d, f) => CreateHSMSlot(a, keys, masterId, t, q, d, f).tables
    case Start(order, looks, fails) => Bootstrap(a, keys, t, order, looks, fails).tables
  }

  ghost predicate AllowedRun(a: Aead, keys: Lookup, masterId: string, t: Tables, cs: seq<Command>)
    requires IsGcm(a)
    decreases |cs|
  {
    cs == [] || (Allowed(t, cs[0]) && AllowedRun(a, keys, masterId, Exec(a, keys, masterId, t, cs[0]), cs[1..]))
  }

  ghost function Run(a: Aead, keys: Lookup, masterId: string, t: Tables, cs: seq<Command>): Tables
    requires IsGcm(a) && AllowedRun(a, keys, masterId, t, cs)
    decreases |cs|
  {
    if cs == [] then t else Run(a, keys, masterId, Exec(a, keys, masterId, t, cs[0]), cs[1..])
  }

  const NO_TABLES := Tables(map[], map[])

  ghost predicate Stores(keys: Lookup, masterId: string, t: Tables, c: Command) {
    c.Create? && CanSeal(keys, masterId, c.draws) && CanStore(t, c.draws.metaId, c.faults)
  }

  ghost predicate LeavesOrphan(keys: Lookup, masterId: string, t: Tables, c: Command) {
    c.Create? && CanSeal(keys, masterId, c.draws) && Strands(t, c.draws.metaId, c.faults)
  }

  /** The PINs of the creations that succeed. */
  ghost function Pins(a: Aead, keys: Lookup, masterId: string, t: Tables, cs: seq<Command>): map<string, seq<Byte>>
    requires IsGcm(a) && AllowedRun(a, keys, masterId, t, cs)
    decreases |cs|
  {
    if cs == [] then map[]
    else
      (if Stores(keys, masterId, t, cs[0]) then map[cs[0].draws.slotId := cs[0].request.pin] else map[])
      + Pins(a, keys, masterId, Exec(a, keys, masterId, t, cs[0]), cs[1..])
  }

  /** Some creation of the run leaves a slot row without metadata. */
  ghost predicate AnyOrphan(a: Aead, keys: Lookup, masterId: string, t: Tables, cs: seq<Command>)
    requires IsGcm(a) && AllowedRun(a, keys, masterId, t, cs)
    decreases |cs|
  {
    cs != [] && (LeavesOrphan(keys, masterId, t, cs[0]) || AnyOrphan(a, keys, masterId, Exec(a, keys, masterId, t, cs[0]), cs[1..]))
  }

  /** What `id` gives back was stored as `pin`: the PIN itself, unless it is empty. */
  ghost predicate Recoverable(a: Aead, keys: Lookup, t: Tables, id: string, pin: seq<Byte>) {
    id in t.slots && RecoverPin(a, keys, t.slots[id], t.metas) == if pin != [] then Ok(pin) else Err(NoPin)
  }

  lemma StepKeeps(a: Aead, keys: Lookup, masterId: string, t: Tables, c: Command)
    requires IsGcm(a) && Allowed(t, c)
    ensures var after := Exec(a, keys, masterId, t, c);
            && Keeps(t, after)
            && (forall id :: id in after.slots && id !in t.slots ==> c.Create? && id == c.draws.slotId)
            && (AllRowsReadable(after) <==> AllRowsReadable(t) && !LeavesOrphan(keys, masterId, t, c))
  {
    match c {
      case Create(q, d, f) =>
        CreationKeeps(a, keys, masterId, t, q, d, f);
        CreateAddsBothRowsOrNone(a, keys, masterId, t, q, d, f);
      case Start(order, looks, fails) =>
        if GetAllSlots(t, order, fails).Some? {
          ReadRowsExactly(t, order);
          VisitsKeep(a, keys, t, GetAllSlots(t, order, fails).value, looks);
        }
    }
  }

  lemma CreationStores(a: Aead, keys: Lookup, masterId: string, t: Tables, c: Command)
    requires IsGcm(a) && Allowed(t, c) && c.Create?
    ensures var after, id := Exec(a, keys, masterId, t, c), c.draws.slotId;
            && (Stores(keys, masterId, t, c) ==> Recoverable(a, keys, after, id, c.request.pin))
            && (id in after.slots ==> Stores(keys, masterId, t, c) || after.slots[id].keyMetadataId.None?)
  {
    CreateAddsBothRowsOrNone(a, keys, masterId, t, c.request, c.draws, c.faults);
    if Stores(keys, masterId, t, c) {
      StoredPinComesBackExactly(a, keys, masterId, t, c.request, c.draws, c.faults);
    }
  }

  lemma {:induction false} RunKeeps(a: Aead, keys: Lookup, masterId: string, t: Tables, cs: seq<Command>)
    requires IsGcm(a) && AllowedRun(a, keys, masterId, t, cs)
    ensures Keeps(t, Run(a, keys, masterId, t, cs))
    decreases |cs|
  {
    if cs != [] {
      StepKeeps(a, keys, masterId, t, cs[0]);
      RunKeeps(a, keys, masterId, Exec(a, keys, masterId, t, cs[0]), cs[1..]);
    }
  }

  /** The slot list can be read after a run exactly if it could before and no creation left its
      row behind. */
  lemma {:induction false} ReadableExactly(a: Aead, keys: Lookup, masterId: string, t: Tables, cs: seq<Command>)
    requires IsGcm(a) && AllowedRun(a, keys, masterId, t, cs)
    ensures AllRowsReadable(Run(a, keys, masterId, t, cs)) <==> AllRowsReadable(t) && !AnyOrphan(a, keys, masterId, t, cs)
    decreases |cs|
  {
    if cs != [] {
      StepKeeps(a, keys, masterId, t, cs[0]);
      ReadableExactly(a, keys, masterId, Exec(a, keys, masterId, t, cs[0]), cs[1..]);
    }
  }

  /** After any run of creations and start-ups, failing ones among them, every PIN stored comes
      back for its own slot, unless it is empty; what came back before still does; and every
      other new row points nowhere. */
  lemma {:induction false} AllStoredPinsComeBack(a: Aead, keys: Lookup, masterId: string, t: Tables, cs: seq<Command>, id: string)
    requires IsGcm(a) && AllowedRun(a, keys, masterId, t, cs)
    ensures var after := Run(a, keys, masterId, t, cs);
            var pins := Pins(a, keys, masterId, t, cs);
            && (id in pins ==> Recoverable(a, keys, after, id, pins[id]))
            && (forall pin :: Recoverable(a, keys, t, id, pin) ==> Recoverable(a, keys, after, id, pin))
            && (id in after.slots && id !in t.slots && id !in pins ==> after.slots[id].keyMetadataId.None?)
            && (id in pins ==> id !in t.slots)
    decreases |cs|
  {
    RunKeeps(a, keys, masterId, t, cs);
    if id in t.slots && RecoverPin(a, keys, t.slots[id], t.metas) != Err(NoMetadata) {
      KeptPinsComeBack(a, keys, t, Run(a, keys, masterId, t, cs), id);
    }
    if cs != [] {
      var next := Exec(a, keys, masterId, t, cs[0]);
      StepKeeps(a, keys, masterId, t, cs[0]);
      AllStoredPinsComeBack(a, keys, masterId, next, cs[1..], id);
      RunKeeps(a, keys, masterId, next, cs[1..]);
      if cs[0].Create? { CreationStores(a, keys, masterId, t, cs[0]); }
    }
  }

  // ----- start-up after any run ----------------------------------------------------------------

  ghost predicate Served(t: Tables, pins: map<string, seq<Byte>>, id: string, look: Look, calls: seq<Attempt>) {
    && id in t.slots && id in pins
    && (pins[id] != [] && !look.metadata ==> Attempt(id, NumberFor(t.slots[id], look.tokens), pins[id]) in calls)
  }

  /** After any run from empty tables a start-up fails to read the slots exactly if the query
      fails or some creation left its row behind, and then opens nothing. Otherwise, whatever
      the order of the rows, it opens a client with exactly the stored PIN for each slot whose
      PIN is not empty and whose metadata can be read, and no other client. */
  lemma BootstrapUsesEachStoredPin(a: Aead, keys: Lookup, masterId: string, cs: seq<Command>,
                                   order: seq<string>, looks: seq<Look>, fails: bool)
    requires IsGcm(a) && AllowedRun(a, keys, masterId, NO_TABLES, cs)
    requires Lists(Run(a, keys, masterId, NO_TABLES, cs), order) && |looks| >= |order|
    ensures var t := Run(a, keys, masterId, NO_TABLES, cs);
            var pins := Pins(a, keys, masterId, NO_TABLES, cs);
            var boot := Bootstrap(a, keys, t, order, looks, fails);
            var unreadable := fails || AnyOrphan(a, keys, masterId, NO_TABLES, cs);
            && (boot.error == Some(SlotsUnreadable) <==> unreadable)
            && (unreadable ==> boot.calls == [] && boot.registry == map[] && boot.tables == t)
            && (!unreadable ==>
                  && (forall x :: x in boot.calls ==> x.slotId in pins && x.pin == pins[x.slotId] && x.pin != [])
                  && (forall i :: 0 <= i < |order| ==> Served(t, pins, order[i], looks[i], boot.calls)))
  {
    var t := Run(a, keys, masterId, NO_TABLES, cs);
    ReadableExactly(a, keys, masterId, NO_TABLES, cs);
    ReadRowsExactly(t, order);
    if !fails && AllRowsReadable(t) {
      var slots := GetAllSlots(t, order, fails).value;
      forall x | x in Visited(a, keys, t, slots, looks).calls
        ensures var pins := Pins(a, keys, masterId, NO_TABLES, cs); x.slotId in pins && x.pin == pins[x.slotId] && x.pin != []
      {
        CallsAreTheAttempts(a, keys, t, slots, looks, x);
        AllStoredPinsComeBack(a, keys, masterId, NO_TABLES, cs, x.slotId);
      }
      forall i | 0 <= i < |order|
        ensures Served(t, Pins(a, keys, masterId, NO_TABLES, cs), order[i], looks[i], Visited(a, keys, t, slots, looks).calls)
      {
        assert order[i] in order;
        AllStoredPinsComeBack(a, keys, masterId, NO_TABLES, cs, order[i]);
        var pin := Pins(a, keys, masterId, NO_TABLES, cs)[order[i]];
        assert slots[i] == Listed(order[i], t.slots[order[i]]);
        CallsAreTheAttempts(a, keys, t, slots, looks, Attempt(order[i], NumberFor(t.slots[order[i]], looks[i].tokens), pin));
      }
    }
  }

  /** Visit `i` builds a client. */
  ghost predicate Builds(pins: map<string, seq<Byte>>, order: seq<string>, looks: seq<Look>, i: int) {
    0 <= i < |order| <= |looks| && order[i] in pins && pins[order[i]] != [] && !looks[i].metadata && !looks[i].client
  }

  lemma {:induction false} RegistryEmptyExactly(a: Aead, keys: Lookup, t: Tables, slots: seq<Listed>, looks: seq<Look>)
    requires |looks| >= |slots|
    ensures Visited(a, keys, t, slots, looks).registry == map[] <==>
              forall i :: 0 <= i < |slots| ==> looks[i].client || AttemptFor(a, keys, t.metas, slots[i], looks[i]).None?
  {
    if slots != [] {
      var n := |slots| - 1;
      var registry, front := Visited(a, keys, t, slots, looks).registry, Visited(a, keys, t, slots[..n], looks).registry;
      RegistryEmptyExactly(a, keys, t, slots[..n], looks);
      assert forall i :: 0 <= i < n ==> slots[..n][i] == slots[i];
      var one := AttemptFor(a, keys, t.metas, slots[n], looks[n]);
      if one.Some? && !looks[n].client {
        assert one.value.number in registry;
      } else {
        assert registry == front;
      }
    }
  }

  /** The same, read off the tables. */
  ghost predicate VisitBuilds(a: Aead, keys: Lookup, t: Tables, order: seq<string>, looks: seq<Look>, i: int) {
    0 <= i < |order| <= |looks| && order[i] in t.slots && !looks[i].client
    && AttemptFor(a, keys, t.metas, Listed(order[i], t.slots[order[i]]), looks[i]).Some?
  }

  /** In a readable table every visit is one of a stored slot, and builds a client exactly as said. */
  lemma BuildsExactly(a: Aead, keys: Lookup, masterId: string, cs: seq<Command>, order: seq<string>, looks: seq<Look>, i: int)
    requires IsGcm(a) && AllowedRun(a, keys, masterId, NO_TABLES, cs)
    requires var t := Run(a, keys, masterId, NO_TABLES, cs);
             Lists(t, order) && |looks| >= |order| && AllRowsReadable(t)
    ensures Builds(Pins(a, keys, masterId, NO_TABLES, cs), order, looks, i) <==>
              VisitBuilds(a, keys, Run(a, keys, masterId, NO_TABLES, cs), order, looks, i)
  {
    if 0 <= i < |order| {
      assert order[i] in order;
      AllStoredPinsComeBack(a, keys, masterId, NO_TABLES, cs, order[i]);
    }
  }

  lemma SomeBuildsExactly(a: Aead, keys: Lookup, masterId: string, cs: seq<Command>, order: seq<string>, looks: seq<Look>)
    requires IsGcm(a) && AllowedRun(a, keys, masterId, NO_TABLES, cs)
    requires var t := Run(a, keys, masterId, NO_TABLES, cs);
             Lists(t, order) && |looks| >= |order| && AllRowsReadable(t)
    ensures (exists i :: Builds(Pins(a, keys, masterId, NO_TABLES, cs), order, looks, i)) <==>
            (exists i :: VisitBuilds(a, keys, Run(a, keys, masterId, NO_TABLES, cs), order, looks, i))
  {
    var pins, t := Pins(a, keys, masterId, NO_TABLES, cs), Run(a, keys, masterId, NO_TABLES, cs);
    if i :| Builds(pins, order, looks, i) {
      BuildsExactly(a, keys, masterId, cs, order, looks, i);
      assert VisitBuilds(a, keys, t, order, looks, i);
    }
    if i :| VisitBuilds(a, keys, t, order, looks, i) {
      BuildsExactly(a, keys, masterId, cs, order, looks, i);
      assert Builds(pins, order, looks, i);
    }
  }

  /** The error of start-up, from the rows and what each visit finds. */
  lemma ErrorExactly(a: Aead, keys: Lookup, t: Tables, order: seq<string>, looks: seq<Look>, fails: bool)
    requires Lists(t, order) && |looks| >= |order|
    ensures var error := Bootstrap(a, keys, t, order, looks, fails).error;
            var some := exists i :: VisitBuilds(a, keys, t, order, looks, i);
            && (error == Some(SlotsUnreadable) <==> fails || !AllRowsReadable(t))
            && (error == Some(NoClients) <==> !fails && AllRowsReadable(t) && !some)
            && (error == None <==> !fails && AllRowsReadable(t) && some)
  {
    ReadRowsExactly(t, order);
    if !fails && AllRowsReadable(t) {
      var slots := GetAllSlots(t, order, fails).value;
      RegistryEmptyExactly(a, keys, t, slots, looks);
      forall i | 0 <= i < |order|
        ensures VisitBuilds(a, keys, t, order, looks, i) <==> !looks[i].client && AttemptFor(a, keys, t.metas, slots[i], looks[i]).Some?
      {
        assert order[i] in order && slots[i] == Listed(order[i], t.slots[order[i]]);
      }
    }
  }

  /** Start-up succeeds exactly if the slots can be read and some client is built; without a
      client it reports that there is none. */
  lemma BootstrapSucceedsExactly(a: Aead, keys: Lookup, masterId: string, cs: seq<Command>,
                                 order: seq<string>, looks: seq<Look>, fails: bool)
    requires IsGcm(a) && AllowedRun(a, keys, masterId, NO_TABLES, cs)
    requires Lists(Run(a, keys, masterId, NO_TABLES, cs), order) && |looks| >= |order|
    ensures var pins := Pins(a, keys, masterId, NO_TABLES, cs);
            var error := Bootstrap(a, keys, Run(a, keys, masterId, NO_TABLES, cs), order, looks, fails).error;
            var unreadable := fails || AnyOrphan(a, keys, masterId, NO_TABLES, cs);
            && (error == None <==> !unreadable && exists i :: Builds(pins, order, looks, i))
            && (error == Some(NoClients) <==> !unreadable && !exists i :: Builds(pins, order, looks, i))
            && (error == Some(SlotsUnreadable) <==> unreadable)
  {
    ReadableExactly(a, keys, masterId, NO_TABLES, cs);
    ErrorExactly(a, keys, Run(a, keys, masterId, NO_TABLES, cs), order, looks, fails);
    if AllRowsReadable(Run(a, keys, masterId, NO_TABLES, cs)) {
      SomeBuildsExactly(a, keys, masterId, cs, order, looks);
    }
  }

  /** A creation that leaves its slot row behind stops every start-up after it, whatever happens
      in between: not only its own slot is lost. */
  lemma OrphanedRowBlocksBootstrap(a: Aead, keys: Lookup, masterId: string, t: Tables, c: Command, cs: seq<Command>,
                                   order: seq<string>, looks: seq<Look>, fails: bool)
    requires IsGcm(a) && Allowed(t, c) && LeavesOrphan(keys, masterId, t, c)
    requires AllowedRun(a, keys, masterId, Exec(a, keys, masterId, t, c), cs)
    requires Lists(Run(a, keys, masterId, Exec(a, keys, masterId, t, c), cs), order) && |looks| >= |order|
    ensures var later := Run(a, keys, masterId, Exec(a, keys, masterId, t, c), cs);
            Bootstrap(a, keys, later, order, looks, fails) == Booted(later, [], map[], Some(SlotsUnreadable))
  {
    StepKeeps(a, keys, masterId, t, c);
    ReadableExactly(a, keys, masterId, Exec(a, keys, masterId, t, c), cs);
    ReadRowsExactly(Run(a, keys, masterId, Exec(a, keys, masterId, t, c), cs), order);
  }

  /** With labels made from tenants' UUIDs, whatever order and numbers the tokens have by now,
      the client is opened on the readable token of the slot's own tenant exactly if the row's
      number is marked temporary or happens to be that token's: any other row is served under
      its stored number unchecked. */
  lemma ClientGoesToItsTenantsToken(row: SlotRow, tokens: seq<TokenSlot>, owners: seq<Option<string>>, k: nat, tenantId: string)
    requires TokensOfTenants(tokens, owners)
    ensures Owns(owners, k, tenantId) && GenerateTenantSlotLabel(tenantId) == Some(row.text) && tokens[k].info.Some? ==>
              (NumberFor(row, Some(tokens)) == tokens[k].number <==> row.temporary || row.number == tokens[k].number)
    ensures Owns(owners, k, tenantId) && GenerateTenantSlotLabel(tenantId) == Some(row.text) && (tokens[k].info.None? || !row.temporary) ==>
              NumberFor(row, Some(tokens)) == row.number
  {
    EachTenantFindsItsOwnSlot(tokens, owners, k, tenantId);
  }

  /** A number that was resolved and saved is never resolved again: after the visit that saved
      it every later start-up uses it, whatever the tokens are numbered by then. */
  lemma ResolvedNumbersStay(a: Aead, keys: Lookup, masterId: string, t: Tables, slot: Listed, look: Look,
                            cs: seq<Command>, later: Option<seq<TokenSlot>>)
    requires slot.id in t.slots && slot.row.temporary && look.tokens.Some? && !look.update
    requires SlotOfLabel(look.tokens.value, slot.row.text).Some?
    requires IsGcm(a) && AllowedRun(a, keys, masterId, AfterInitialize(t, slot, look), cs)
    ensures var after := Run(a, keys, masterId, AfterInitialize(t, slot, look), cs);
            slot.id in after.slots && NumberFor(after.slots[slot.id], later) == NumberFor(slot.row, look.tokens)
  {
    PlainNumbersStay(a, keys, masterId, AfterInitialize(t, slot, look), cs, slot.id);
  }

  lemma {:induction false} PlainNumbersStay(a: Aead, keys: Lookup, masterId: string, t: Tables, cs: seq<Command>, id: string)
    requires IsGcm(a) && AllowedRun(a, keys, masterId, t, cs) && id in t.slots && !t.slots[id].temporary
    ensures var after := Run(a, keys, masterId, t, cs); id in after.slots && after.slots[id] == t.slots[id]
    decreases |cs|
  {
    if cs != [] {
      PlainNumberStays(a, keys, masterId, t, cs[0], id);
      PlainNumbersStay(a, keys, masterId, Exec(a, keys, masterId, t, cs[0]), cs[1..], id);
    }
  }

  lemma PlainNumberStays(a: Aead, keys: Lookup, masterId: string, t: Tables, c: Command, id: string)
    requires IsGcm(a) && Allowed(t, c) && id in t.slots && !t.slots[id].temporary
    ensures var after := Exec(a, keys, masterId, t, c); id in after.slots && after.slots[id] == t.slots[id]
  {
    match c {
      case Create(q, d, f) =>
        CreateAddsBothRowsOrNone(a, keys, masterId, t, q, d, f);
        var after := CreateHSMSlot(a, keys, masterId, t, q, d, f).tables;
        assert after.slots == t.slots || after.slots - {d.slotId} == t.slots;
        assert id in after.slots || id in after.slots - {d.slotId};
      case Start(order, looks, fails) =>
        if GetAllSlots(t, order, fails).Some? {
          ReadRowsExactly(t, order);
          VisitsLeavePlainRows(a, keys, t, GetAllSlots(t, order, fails).value, looks, id);
        }
    }
  }

  lemma {:induction false} VisitsLeavePlainRows(a: Aead, keys: Lookup, t: Tables, slots: seq<Listed>, looks: seq<Look>, id: string)
    requires |looks| >= |slots| && id in t.slots && !t.slots[id].temporary
    requires forall slot :: slot in slots && slot.id == id ==> slot.row == t.slots[id]
    ensures var after := Visited(a, keys, t, slots, looks).tables; id in after.slots && after.slots[id] == t.slots[id]
  {
    if slots != [] {
      assert slots[|slots| - 1] in slots;
      VisitsLeavePlainRows(a, keys, t, slots[..|slots| - 1], looks, id);
    }
  }
}
