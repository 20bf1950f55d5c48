// One process's use of a PKCS#11 library: the shared context that is initialised once and
// finalised at the end (section 5.4 of the PKCS #11 Base Specification v2.40), the clients
// that open sessions through it, and the registry that maps slots to clients.
module Pkcs11Process {
  import opened Wrappers

  type Session = nat

  /** A loaded library, known by the path it was loaded from. */
  datatype Context = Context(path: string)

  datatype InitError = CreateFailed(path: string) | InitializeFailed(path: string)

  /** `initCalls` and `finalized` count what the library was asked to do. */
  datatype Shared = Shared(ctx: Option<Context>, path: string, once: bool, error: Option<InitError>,
                           initCalls: nat, finalized: nat)

  const UNUSED := Shared(None, "", false, None, 0, 0)

  datatype Reply = OtherLibrary(path: string) | Reply(ctx: Option<Context>, error: Option<InitError>)

  function InitOnce(s: Shared, path: string, loads: bool, initializes: bool): Shared {
    if s.once then s
    else if !loads then s.(once := true, path := path, ctx := None, error := Some(CreateFailed(path)))
    else if !initializes then
      s.(once := true, path := "", ctx := None, error := Some(InitializeFailed(path)), initCalls := s.initCalls + 1)
    else
      s.(once := true, path := path, ctx := Some(Context(path)), error := None, initCalls := s.initCalls + 1)
  }

  function GetOrInit(s: Shared, path: string, loads: bool, initializes: bool): (r: (Shared, Reply)) {
    if s.ctx.Some? && s.path != path then (s, OtherLibrary(s.path))
    else
      var t := InitOnce(s, path, loads, initializes);
      (t, Reply(t.ctx, t.error))
  }

  function Finalize(s: Shared, works: bool): Shared {
    if s.ctx.None? || !works then s
    else s.(ctx := None, path := "", finalized := s.finalized + 1)
  }

  // ----- clients and registry ------------------------------------------------------

  datatype Client = Client(session: Session, closed: bool)

  /** `clients` lists every client ever built, `registry` says which one serves a slot, and
      `closes` logs the CloseSession calls on the `count` sessions opened so far. */
  datatype Process = Process(shared: Shared, clients: seq<Client>, registry: map<int, nat>,
                             count: nat, closes: seq<Session>)

  datatype ClientFaults = ClientFaults(loads: bool, initializes: bool, slotsListed: bool, opens: bool,
                                       infoRead: bool, logsIn: bool)

  datatype Built = NotBuilt | NilContext | BuiltClient(index: nat)

  function NewClient(p: Process, path: string, f: ClientFaults): (Process, Built) {
    var (shared, reply) := GetOrInit(p.shared, path, f.loads, f.initializes);
    var q := p.(shared := shared);
    if reply.OtherLibrary? || reply.error.Some? then (q, NotBuilt)
    else if reply.ctx.None? then (q, NilContext)
    else if !f.slotsListed || !f.opens then (q, NotBuilt)
    else if !f.infoRead || !f.logsIn then (q.(count := p.count + 1, closes := p.closes + [p.count]), NotBuilt)
    else (q.(count := p.count + 1, clients := p.clients + [Client(p.count, false)]), BuiltClient(|p.clients|))
  }

  function CloseClient(p: Process, i: nat): Process
    requires i < |p.clients|
  {
    if p.clients[i].closed then p
    else p.(clients := p.clients[i := p.clients[i].(closed := true)], closes := p.closes + [p.clients[i].session])
  }

  predicate RegistryOk(p: Process) {
    forall slot :: slot in p.registry ==> p.registry[slot] < |p.clients|
  }

  function Register(p: Process, slot: int, i: nat): Process
    requires RegistryOk(p) && i < |p.clients|
  {
    var q := if slot in p.registry then CloseClient(p, p.registry[slot]) else p;
    q.(registry := q.registry[slot := i])
  }

  function CloseSlot(p: Process, slot: int): Process
    requires RegistryOk(p)
  {
    if slot in p.registry then CloseClient(p, p.registry[slot]) else p
  }

  /** Closing clients one after the other, in the order of `slots`. */
  function CloseEach(p: Process, slots: seq<int>): Process
    requires RegistryOk(p)
    decreases |slots|
  {
    if slots == [] then p else CloseEach(CloseSlot(p, slots[0]), slots[1..])
  }

  function CloseAll(p: Process, order: seq<int>, finalizes: bool): Process
    requires RegistryOk(p)
  {
    var q := CloseEach(p, order);
    q.(registry := map[], shared := Finalize(q.shared, finalizes))
  }

  datatype Command =
    | Get(path: string, loads: bool, initializes: bool)
    | Build(path: string, faults: ClientFaults)
    | Install(slot: int, index: nat)
    | Drop(slot: int)
    | Shutdown(order: seq<int>, finalizes: bool)
    | FinalizeOnly(works: bool)

  /** Clients are there before they are registered, and shutdown walks over exactly the registry. */
  predicate Allowed(p: Process, c: Command) {
    RegistryOk(p) &&
    match c
    case Install(slot, i) => i < |p.clients|
    case Shutdown(order, _) => (set slot | slot in order) == p.registry.Keys
    case _ => true
  }

  function Exec(p: Process, c: Command): Process
    requires Allowed(p, c)
  {
    match c
    case Get(path, loads, initializes) => p.(shared := GetOrInit(p.shared, path, loads, initializes).0)
    case Build(path, f) => NewClient(p, path, f).0
    case Install(slot, i) => Register(p, slot, i)
    case Drop(slot) => CloseSlot(p, slot)
    case Shutdown(order, finalizes) => CloseAll(p, order, finalizes)
    case FinalizeOnly(works) => p.(shared := Finalize(p.shared, works))
  }

  predicate AllowedRun(p: Process, cs: seq<Command>)
    decreases |cs|
  {
    cs == [] || (Allowed(p, cs[0]) && AllowedRun(Exec(p, cs[0]), cs[1..]))
  }

  function Run(p: Process, cs: seq<Command>): Process
    requires AllowedRun(p, cs)
    decreases |cs|
  {
    if cs == [] then p else Run(Exec(p, cs[0]), cs[1..])
  }

  const NEW_PROCESS := Process(UNUSED, [], map[], 0, [])

  // ----- the shared context -------------------------------------------------------------

  ghost predicate SharedOk(s: Shared) {
    && s.initCalls <= 1 && s.finalized <= s.initCalls
    && (!s.once ==> s == UNUSED)
    && (s.ctx.Some? ==> s.ctx.value.path == s.path && s.error.None? && s.initCalls == 1 && s.finalized == 0)
    && (s.once && s.ctx.None? ==> (s.error.None? <==> s.finalized == 1))
  }

  /** Over every run Initialize is called at most once, a context comes back only for the path
      it was built with and never after finalisation; and after finalisation the answer is
      neither a context nor an error, which is the only way to get neither. */
  lemma ContextOnlyWhileInitialised(s: Shared, path: string, loads: bool, initializes: bool)
    requires SharedOk(s)
    ensures var (t, reply) := GetOrInit(s, path, loads, initializes);
            && SharedOk(t) && t.finalized == s.finalized
            && (reply.Reply? && reply.ctx.Some? ==> reply.ctx.value.path == path && reply.error.None? && t.initCalls == 1 && t.finalized == 0)
            && (reply.Reply? && reply.ctx.None? && reply.error.None? <==> s.finalized == 1)
            && (reply.OtherLibrary? ==> reply.path != path && s.ctx == Some(Context(reply.path)))
  {
  }

  /** What each call answers: the first one decides for good. */
  lemma GetAnswersExactly(s: Shared, path: string, loads: bool, initializes: bool)
    requires SharedOk(s)
    ensures var (t, reply) := GetOrInit(s, path, loads, initializes);
            && (reply == OtherLibrary(s.path) <==> s.ctx.Some? && s.path != path)
            && (reply.OtherLibrary? <==> s.ctx.Some? && s.path != path)
            && (!s.once ==>
                  && (reply == Reply(Some(Context(path)), None) <==> loads && initializes)
                  && (reply == Reply(None, Some(CreateFailed(path))) <==> !loads)
                  && (reply == Reply(None, Some(InitializeFailed(path))) <==> loads && !initializes)
                  && t.once && (t.initCalls == 1 <==> loads) && (t.ctx.Some? <==> loads && initializes))
            && (s.once ==> t == s)
            && (s.once && s.ctx == Some(Context(path)) ==> reply == Reply(Some(Context(path)), None))
            && (s.once && s.ctx.None? ==> reply == Reply(None, s.error))
  {
  }

  /** Finalising takes effect exactly if there is a context and the library agrees. */
  lemma FinalizesExactly(s: Shared, works: bool)
    ensures var t := Finalize(s, works);
            && (t.ctx.None? <==> s.ctx.None? || works)
            && (t.finalized == s.finalized + (if s.ctx.Some? && works then 1 else 0))
            && t.initCalls == s.initCalls && t.once == s.once && t.error == s.error
            && (t.ctx.Some? ==> t == s)
  {
  }

  // ----- sessions -------------------------------------------------------------------------

  function Closes(closes: seq<Session>, s: Session): nat {
    multiset(closes)[s]
  }

  /** Some client holds the session open. */
  ghost predicate HeldOpen(clients: seq<Client>, s: Session) {
    exists i :: 0 <= i < |clients| && clients[i] == Client(s, false)
  }

  /** Every session opened so far is held open by one client, or else was closed once. */
  ghost predicate SessionsOk(clients: seq<Client>, count: nat, closes: seq<Session>) {
    && (forall i :: 0 <= i < |clients| ==> clients[i].session < count)
    && (forall i, j :: 0 <= i < j < |clients| ==> clients[i].session != clients[j].session)
    && (forall s: Session :: Closes(closes, s) == if s < count && !HeldOpen(clients, s) then 1 else 0)
  }

  ghost predicate Inv(p: Process) {
    SharedOk(p.shared) && RegistryOk(p) && SessionsOk(p.clients, p.count, p.closes)
  }

  /** A process starts in the invariant. */
  lemma NewProcessMeetsInv()
    ensures Inv(NEW_PROCESS)
  {
  }

  lemma ClosesAppend(closes: seq<Session>, s: Session)
    ensures forall x: Session :: Closes(closes + [s], x) == Closes(closes, x) + (if x == s then 1 else 0)
  {
  }

  lemma ClosingOne(clients: seq<Client>, count: nat, closes: seq<Session>, i: nat)
    requires SessionsOk(clients, count, closes) && i < |clients| && !clients[i].closed
    ensures SessionsOk(clients[i := clients[i].(closed := true)], count, closes + [clients[i].session])
  {
    var after := clients[i := clients[i].(closed := true)];
    var session := clients[i].session;
    ClosesAppend(closes, session);
    forall s: Session ensures Closes(closes + [session], s) == if s < count && !HeldOpen(after, s) then 1 else 0 {
      assert Closes(closes, s) == if s < count && !HeldOpen(clients, s) then 1 else 0;
      if s == session {
        assert clients[i] == Client(s, false);
      } else if HeldOpen(clients, s) {
        var j :| 0 <= j < |clients| && clients[j] == Client(s, false);
        assert after[j] == Client(s, false);
      }
    }
  }

  lemma OpeningOne(clients: seq<Client>, count: nat, closes: seq<Session>)
    requires SessionsOk(clients, count, closes)
    ensures SessionsOk(clients, count + 1, closes + [count])
    ensures SessionsOk(clients + [Client(count, false)], count + 1, closes)
  {
    ClosesAppend(closes, count);
    var after := clients + [Client(count, false)];
    assert after[|clients|] == Client(count, false);
    forall s: Session ensures Closes(closes, s) == if s < count + 1 && !HeldOpen(after, s) then 1 else 0 {
      assert Closes(closes, s) == if s < count && !HeldOpen(clients, s) then 1 else 0;
      if HeldOpen(clients, s) {
        var j :| 0 <= j < |clients| && clients[j] == Client(s, false);
        assert after[j] == Client(s, false);
      }
    }
  }

  lemma CloseClientKeepsInv(p: Process, i: nat)
    requires Inv(p) && i < |p.clients|
    ensures var q := CloseClient(p, i);
            && Inv(q) && q.clients[i].closed && |q.clients| == |p.clients|
            && (forall j :: 0 <= j < |p.clients| ==> q.clients[j].session == p.clients[j].session && (q.clients[j].closed <==> p.clients[j].closed || j == i))
            && q.registry == p.registry && q.shared == p.shared && q.count == p.count
  {
    if !p.clients[i].closed { ClosingOne(p.clients, p.count, p.closes, i); }
  }

  lemma BuildKeepsInv(p: Process, path: string, f: ClientFaults)
    requires Inv(p)
    ensures Inv(NewClient(p, path, f).0)
  {
    ContextOnlyWhileInitialised(p.shared, path, f.loads, f.initializes);
    OpeningOne(p.clients, p.count, p.closes);
  }

  /** Whatever the order of the walk, afterwards exactly the clients of the walked slots were
      closed in addition. */
  lemma {:induction false} CloseEachKeepsInv(p: Process, slots: seq<int>)
    requires Inv(p)
    ensures var q := CloseEach(p, slots);
            && Inv(q) && |q.clients| == |p.clients| && q.registry == p.registry
            && q.shared == p.shared && q.count == p.count
            && (forall j :: 0 <= j < |p.clients| ==>
                  q.clients[j].session == p.clients[j].session
                  && (q.clients[j].closed <==> p.clients[j].closed || exists slot :: slot in slots && slot in p.registry && p.registry[slot] == j))
    decreases |slots|
  {
    if slots != [] {
      var p1 := CloseSlot(p, slots[0]);
      if slots[0] in p.registry { CloseClientKeepsInv(p, p.registry[slots[0]]); }
      CloseEachKeepsInv(p1, slots[1..]);
      var q := CloseEach(p, slots);
      forall j | 0 <= j < |p.clients|
        ensures q.clients[j].closed <==> p.clients[j].closed || exists slot :: slot in slots && slot in p.registry && p.registry[slot] == j
      {
        assert slots == [slots[0]] + slots[1..];
      }
    }
  }

  lemma StepKeepsInv(p: Process, c: Command)
    requires Inv(p) && Allowed(p, c)
    ensures Inv(Exec(p, c))
  {
    match c {
      case Get(path, loads, initializes) => ContextOnlyWhileInitialised(p.shared, path, loads, initializes);
      case Build(path, f) => BuildKeepsInv(p, path, f);
      case Install(slot, i) => if slot in p.registry { CloseClientKeepsInv(p, p.registry[slot]); }
      case Drop(slot) => if slot in p.registry { CloseClientKeepsInv(p, p.registry[slot]); }
      case Shutdown(order, finalizes) => CloseEachKeepsInv(p, order);
      case FinalizeOnly(works) =>
    }
  }

  /** Over every sequence of get, build, register, close, shut-down and finalise calls:
      Initialize and a successful Finalize happen at most once, and no session is closed twice. */
  lemma {:induction false} EveryRunKeepsInv(p: Process, cs: seq<Command>)
    requires Inv(p) && AllowedRun(p, cs)
    ensures Inv(Run(p, cs)) && Run(p, cs).shared.initCalls <= 1
    ensures forall s: Session :: Closes(Run(p, cs).closes, s) <= 1
    decreases |cs|
  {
    if cs != [] {
      StepKeepsInv(p, cs[0]);
      EveryRunKeepsInv(Exec(p, cs[0]), cs[1..]);
    }
  }

  /** When CloseAll comes to finalise, every registered client is closed; afterwards nobody is
      registered, and all sessions ever opened are closed exactly if every client that was
      never registered had been closed by other means. */
  lemma CloseAllFinalisesLast(p: Process, order: seq<int>, finalizes: bool)
    requires Inv(p) && Allowed(p, Shutdown(order, finalizes))
    ensures var atFinalise := CloseEach(p, order);
            var q := CloseAll(p, order, finalizes);
            && |atFinalise.clients| == |p.clients|
            && (forall slot :: slot in p.registry ==> atFinalise.clients[p.registry[slot]].closed)
            && atFinalise.shared == p.shared
            && q.registry == map[] && (finalizes ==> q.shared.ctx.None?)
            && ((forall s: Session :: s < q.count ==> Closes(q.closes, s) == 1) <==>
                forall i :: 0 <= i < |p.clients| ==> p.clients[i].closed || exists slot :: slot in p.registry && p.registry[slot] == i)
  {
    CloseEachKeepsInv(p, order);
    var q := CloseAll(p, order, finalizes);
    var a := CloseEach(p, order);
    if forall s: Session :: s < q.count ==> Closes(q.closes, s) == 1 {
      forall i | 0 <= i < |p.clients| ensures p.clients[i].closed || exists slot :: slot in p.registry && p.registry[slot] == i {
        assert Closes(a.closes, a.clients[i].session) == 1;
        assert a.clients[i] != Client(a.clients[i].session, false);
      }
    } else {
      var s: Session :| s < q.count && Closes(q.closes, s) != 1;
      assert HeldOpen(a.clients, s);
    }
  }

  /** A client cannot be built after a successful finalisation, and is told so by no error:
      the missing context is used at once. */
  lemma NoClientAfterFinalise(p: Process, path: string, f: ClientFaults)
    requires Inv(p)
    ensures NewClient(p, path, f).1 == NilContext <==> p.shared.finalized == 1
  {
  }

  /** Once there is no context left after the first attempt, whether it failed or was
      finalised, no call ever changes that or the answer. */
  lemma {:induction false} NoSecondInitialisation(p: Process, cs: seq<Command>)
    requires Inv(p) && AllowedRun(p, cs) && p.shared.once && p.shared.ctx.None?
    ensures Run(p, cs).shared == p.shared
    decreases |cs|
  {
    if cs != [] {
      StepKeepsInv(p, cs[0]);
      if cs[0].Shutdown? { CloseEachKeepsInv(p, cs[0].order); }
      assert Exec(p, cs[0]).shared == p.shared;
      NoSecondInitialisation(Exec(p, cs[0]), cs[1..]);
    }
  }

  /** Registering closes the client that served the slot and nothing else; the other slots keep
      theirs. */
  lemma RegistersExactly(p: Process, slot: int, i: nat)
    requires Inv(p) && i < |p.clients|
    ensures var q := Register(p, slot, i);
            && q.registry == p.registry[slot := i] && q.shared == p.shared && q.count == p.count && |q.clients| == |p.clients|
            && (forall j :: 0 <= j < |p.clients| ==>
                  q.clients[j].session == p.clients[j].session
                  && (q.clients[j].closed <==> p.clients[j].closed || (slot in p.registry && p.registry[slot] == j)))
  {
    if slot in p.registry { CloseClientKeepsInv(p, p.registry[slot]); }
  }

  /** A command that finalises the library. */
  predicate Finalises(c: Command) {
    (c.Shutdown? && c.finalizes) || (c.FinalizeOnly? && c.works)
  }

  /** A context that is there stays there through every run without a successful finalisation,
      and every call for its path gets it. */
  lemma {:induction false} ContextStaysUntilFinalised(p: Process, cs: seq<Command>, path: string, loads: bool, initializes: bool)
    requires Inv(p) && AllowedRun(p, cs) && p.shared.ctx == Some(Context(path))
    requires forall c :: c in cs ==> !Finalises(c)
    ensures Run(p, cs).shared == p.shared
    ensures GetOrInit(Run(p, cs).shared, path, loads, initializes) == (p.shared, Reply(Some(Context(path)), None))
    decreases |cs|
  {
    if cs != [] {
      assert cs[0] in cs;
      StepKeepsInv(p, cs[0]);
      if cs[0].Shutdown? { CloseEachKeepsInv(p, cs[0].order); }
      assert Exec(p, cs[0]).shared == p.shared;
      ContextStaysUntilFinalised(Exec(p, cs[0]), cs[1..], path, loads, initializes);
    }
  }

  /** When a client is built, and what becomes of the session that was opened for it. */
  lemma NewClientExactly(p: Process, path: string, f: ClientFaults)
    requires Inv(p)
    ensures var (q, built) := NewClient(p, path, f);
            var reply := GetOrInit(p.shared, path, f.loads, f.initializes).1;
            var opens := reply == Reply(Some(Context(path)), None) && f.slotsListed && f.opens;
            && (built.BuiltClient? <==> opens && f.infoRead && f.logsIn)
            && (built.BuiltClient? ==> built.index == |p.clients| && q.clients == p.clients + [Client(p.count, false)] && q.closes == p.closes)
            && (!built.BuiltClient? ==> q.clients == p.clients)
            && q.count == p.count + (if opens then 1 else 0)
            && (opens && !built.BuiltClient? ==> q.closes == p.closes + [p.count])
            && (!opens ==> q.closes == p.closes) && q.registry == p.registry
  {
    GetAnswersExactly(p.shared, path, f.loads, f.initializes);
  }
}
