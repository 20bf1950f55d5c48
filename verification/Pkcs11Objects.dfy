// The package-level context, the clients and the manager as mutable objects.
module Pkcs11Objects {
  import opened Wrappers
  import opened Pkcs11Process

  /** The library's count of opened sessions and its log of closed ones. */
  class Library {
    var count: nat
    var closes: seq<Session>

    constructor ()
      ensures count == 0 && closes == []
    {
      count, closes := 0, [];
    }
  }

  class SoftHSMClient {
    const session: Session
    const lib: Library
    var closed: bool

    constructor (session: Session, lib: Library)
      ensures this.session == session && this.lib == lib && !closed
    {
      this.session, this.lib, closed := session, lib, false;
    }

    ghost function View(): Client
      reads this
    {
      Client(session, closed)
    }

    method Close()
      modifies this, lib`closes
      ensures closed
      ensures lib.closes == old(lib.closes) + if old(closed) then [] else [session]
    {
      if closed {
        return;
      }
      closed := true;
      lib.closes := lib.closes + [session];
    }
  }

  class SharedContext {
    var sharedPKCS11Ctx: Option<Context>
    var initialized: bool
    var initErr: Option<InitError>
    var currentLibraryPath: string
    ghost var initCalls: nat
    ghost var finalized: nat

    constructor ()
      ensures View() == UNUSED && SharedOk(View())
    {
      sharedPKCS11Ctx, initialized, initErr, currentLibraryPath := None, false, None, "";
      initCalls, finalized := 0, 0;
    }

    ghost function View(): Shared
      reads this
    {
      Shared(sharedPKCS11Ctx, currentLibraryPath, initialized, initErr, initCalls, finalized)
    }

    method GetOrInitPKCS11Context(libraryPath: string, loads: bool, initializes: bool) returns (reply: Reply)
      modifies this
      ensures (View(), reply) == GetOrInit(old(View()), libraryPath, loads, initializes)
    {
      if sharedPKCS11Ctx.Some? && currentLibraryPath != libraryPath {
        return OtherLibrary(currentLibraryPath);
      }
      if !initialized {
        initialized := true;
        currentLibraryPath := libraryPath;
        if !loads {
          sharedPKCS11Ctx, initErr := None, Some(CreateFailed(libraryPath));
        } else {
          initCalls := initCalls + 1;
          sharedPKCS11Ctx, initErr := Some(Context(libraryPath)), None;
          if !initializes {
            sharedPKCS11Ctx, currentLibraryPath := None, "";
            initErr := Some(InitializeFailed(libraryPath));
          }
        }
      }
      return Reply(sharedPKCS11Ctx, initErr);
    }

    /** To be called when the given clients, the users of the context, are closed. */
    method FinalizePKCS11Context(works: bool, ghost users: set<SoftHSMClient>) returns (ok: bool)
      requires forall c :: c in users ==> c.closed
      modifies this
      ensures View() == Finalize(old(View()), works)
      ensures ok <==> works || old(sharedPKCS11Ctx).None?
    {
      if sharedPKCS11Ctx.None? {
        return true;
      }
      if !works {
        return false;
      }
      finalized := finalized + 1;
      sharedPKCS11Ctx, currentLibraryPath := None, "";
      return true;
    }

    method IsInitialized() returns (r: bool)
      ensures SharedOk(View()) ==> (r <==> initCalls == 1 && finalized == 0 && initErr.None?)
    {
      r := sharedPKCS11Ctx.Some?;
    }
  }

  /** What NewSoftHSMClient returns; NoContext is the nil context it goes on to use. */
  datatype ClientReply = Failed | NoContext | Made(client: SoftHSMClient)

  /** Open, ask, log in; the session is closed again when a step after the opening fails. */
  method NewSoftHSMClient(lib: Library, shared: SharedContext, modulePath: string, f: ClientFaults) returns (r: ClientReply)
    modifies lib, shared
    ensures var (q, built) := NewClient(Process(old(shared.View()), [], map[], old(lib.count), old(lib.closes)), modulePath, f);
            && shared.View() == q.shared && lib.count == q.count && lib.closes == q.closes
            && (r.Failed? <==> built.NotBuilt?) && (r.NoContext? <==> built.NilContext?)
            && (r.Made? ==> fresh(r.client) && r.client.lib == lib && [r.client.View()] == q.clients)
  {
    var reply := shared.GetOrInitPKCS11Context(modulePath, f.loads, f.initializes);
    if reply.OtherLibrary? || reply.error.Some? {
      return Failed;
    }
    if reply.ctx.None? {
      return NoContext;
    }
    if !f.slotsListed || !f.opens {
      return Failed;
    }
    var session := lib.count;
    lib.count := lib.count + 1;
    if !f.infoRead || !f.logsIn {
      lib.closes := lib.closes + [session];
      return Failed;
    }
    var client := new SoftHSMClient(session, lib);
    return Made(client);
  }

  class HSMManager {
    const lib: Library
    const shared: SharedContext
    var clients: map<int, SoftHSMClient>

    /** One session per client, one library for all. */
    ghost predicate Valid()
      reads this, clients.Values
    {
      && (forall c :: c in clients.Values ==> c.lib == lib)
      && (forall c, d :: c in clients.Values && d in clients.Values && c != d ==> c.session != d.session)
    }

    constructor (lib: Library, shared: SharedContext)
      ensures Valid() && clients == map[] && this.lib == lib && this.shared == shared
    {
      this.lib, this.shared, clients := lib, shared, map[];
    }

    method RegisterClient(slot: int, client: SoftHSMClient)
      requires Valid() && client.lib == lib
      requires forall c :: c in clients.Values && c != client ==> c.session != client.session
      modifies this, lib`closes, if slot in clients then {clients[slot]} else {}
      ensures Valid() && clients == old(clients)[slot := client]
      ensures client.closed <==> old(client.closed) || (slot in old(clients) && old(clients)[slot] == client)
      ensures slot in old(clients) ==> old(clients)[slot].closed
      ensures lib.closes == old(lib.closes) + if slot in old(clients) && !old(clients[slot].closed) then [old(clients)[slot].session] else []
    {
      if slot in clients {
        clients[slot].Close();
      }
      clients := clients[slot := client];
    }

    method GetClientForSlot(slot: int) returns (client: Option<SoftHSMClient>)
      ensures client == if slot in clients then Some(clients[slot]) else None
    {
      if slot !in clients {
        return None;
      }
      return Some(clients[slot]);
    }

    method ClientCount() returns (n: nat)
      ensures n == |clients|
    {
      n := |clients|;
    }

    /** The client stays registered, closed. */
    method Close(slot: int) returns (ok: bool)
      requires Valid()
      modifies lib`closes, if slot in clients then {clients[slot]} else {}
      ensures ok <==> slot in clients
      ensures clients == old(clients) && (ok ==> clients[slot].closed)
      ensures lib.closes == old(lib.closes) + if ok && !old(clients[slot].closed) then [clients[slot].session] else []
    {
      var client := GetClientForSlot(slot);
      if client.None? {
        return false;
      }
      client.value.Close();
      return true;
    }

    /** CloseAll's loop over the clients, in the order in which the map happens to be walked. */
    method CloseEach(walk: seq<SoftHSMClient>)
      requires forall c :: c in walk ==> c.lib == lib
      requires forall c, d :: c in walk && d in walk && c != d ==> c.session != d.session
      modifies lib`closes, walk
      ensures forall c :: c in walk ==> c.closed
      ensures lib.closes == old(lib.closes) + CloseLog(old(Views(walk)))
    {
      ghost var was := Views(walk);
      for i := 0 to |walk|
        invariant forall c :: c in walk ==> (c.closed <==> old(c.closed) || c in walk[..i])
        invariant lib.closes == old(lib.closes) + CloseLog(was[..i])
      {
        assert was[..i + 1][..i] == was[..i] && walk[..i + 1] == walk[..i] + [walk[i]];
        assert was[i] == Client(walk[i].session, old(walk[i].closed));
        assert Held(was[..i], walk[i].session) <==> walk[i] in walk[..i] by {
          if j :| 0 <= j < i && was[..i][j].session == walk[i].session { assert walk[j] in walk && walk[j] in walk[..i]; }
          if walk[i] in walk[..i] { var j :| 0 <= j < i && walk[j] == walk[i]; assert was[..i][j].session == walk[i].session; }
        }
        walk[i].Close();
      }
      assert was[..|walk|] == was && walk[..|walk|] == walk;
    }

    /** All registered clients are closed first; only then is the shared context finalised. */
    method CloseAll(walk: seq<SoftHSMClient>, finalizes: bool) returns (ok: bool)
      requires Valid() && forall c :: c in walk <==> c in clients.Values
      modifies this, lib`closes, shared, clients.Values
      ensures Valid() && clients == map[]
      ensures forall c :: c in old(clients).Values ==> c.closed
      ensures lib.closes == old(lib.closes) + CloseLog(old(Views(walk)))
      ensures shared.View() == Finalize(old(shared.View()), finalizes)
      ensures ok <==> finalizes || old(shared.sharedPKCS11Ctx).None?
    {
      CloseEach(walk);
      ghost var users := clients.Values;
      clients := map[];
      ok := shared.FinalizePKCS11Context(finalizes, users);
    }
  }

  ghost function Views(walk: seq<SoftHSMClient>): seq<Client>
    reads walk
  {
    seq(|walk|, i requires 0 <= i < |walk| reads walk => walk[i].View())
  }

  ghost predicate Held(was: seq<Client>, s: Session) {
    exists i :: 0 <= i < |was| && was[i].session == s
  }

  /** The sessions that a walk over clients closes, given how these were before. */
  ghost function CloseLog(was: seq<Client>): seq<Session> {
    if was == [] then []
    else
      var front, last := was[..|was| - 1], was[|was| - 1];
      CloseLog(front) + if last.closed || Held(front, last.session) then [] else [last.session]
  }

  /** Each session that a walked client held open is closed exactly once and no other is, even
      if one client serves two slots and is met twice. */
  lemma {:induction false} WalkClosesOnce(was: seq<Client>, s: Session)
    requires forall c, d :: c in was && d in was && c.session == d.session ==> c == d
    ensures Closes(CloseLog(was), s) == if Client(s, false) in was then 1 else 0
  {
    if was != [] {
      var front, last := was[..|was| - 1], was[|was| - 1];
      assert was == front + [last];
      WalkClosesOnce(front, s);
      ClosesAppend(CloseLog(front), last.session);
      if i :| 0 <= i < |front| && front[i].session == last.session {
        assert front[i] in was && last in was;
      }
    }
  }
}
