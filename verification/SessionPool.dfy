// The session pool as a machine of atomic steps. A GetSession call acquires a permit, then
// selects (take an idle session, give up, or create one), and creation itself goes through a
// mutex, an open and a login. Sessions are numbered in the order in which they are opened.
module SessionPools {
  import opened Wrappers

  type Call = nat
  type Session = nat

  datatype Stage = AtLock | Opening | LoggingIn(session: Session)

  /** `used` counts the semaphore's permits, `failures` the on-demand creations that failed. */
  datatype Pool = Pool(max: nat, idle: seq<Session>, used: nat, holder: Option<Call>,
                       selecting: set<Call>, creating: map<Call, Stage>, lent: map<Call, Session>,
                       releasing: set<Call>, openCount: nat, closed: seq<Session>, failures: nat)

  datatype Action =
    | Acquire(c: Call)
    | TakeIdle(c: Call)
    | GiveUp(c: Call)
    | StartCreate(c: Call)
    | Lock(c: Call)
    | OpenSession(c: Call, fails: bool)
    | Login(c: Call, fails: bool)
    | PutBack(c: Call)
    | Release(c: Call)

  predicate Elsewhere(p: Pool, c: Call) {
    c in p.selecting || c in p.creating || c in p.lent || c in p.releasing
  }

  predicate Enabled(p: Pool, a: Action) {
    match a
    case Acquire(c) => p.used < p.max && !Elsewhere(p, c)
    case TakeIdle(c) => c in p.selecting && p.idle != []
    case GiveUp(c) => c in p.selecting
    case StartCreate(c) => c in p.selecting && p.idle == []
    case Lock(c) => c in p.creating && p.creating[c] == AtLock && p.holder == None
    case OpenSession(c, _) => c in p.creating && p.creating[c] == Opening
    case Login(c, _) => c in p.creating && p.creating[c].LoggingIn?
    case PutBack(c) => c in p.lent
    case Release(c) => c in p.releasing && p.used > 0
  }

  function Apply(p: Pool, a: Action): Pool
    requires Enabled(p, a)
  {
    match a
    case Acquire(c) => p.(used := p.used + 1, selecting := p.selecting + {c})
    case TakeIdle(c) => p.(idle := p.idle[1..], selecting := p.selecting - {c}, lent := p.lent[c := p.idle[0]])
    case GiveUp(c) => p.(selecting := p.selecting - {c}, releasing := p.releasing + {c})
    case StartCreate(c) => p.(selecting := p.selecting - {c}, creating := p.creating[c := AtLock])
    case Lock(c) => p.(creating := p.creating[c := Opening], holder := Some(c))
    case OpenSession(c, fails) =>
      if fails then p.(creating := p.creating - {c}, holder := None, failures := p.failures + 1)
      else p.(creating := p.creating[c := LoggingIn(p.openCount)], openCount := p.openCount + 1)
    case Login(c, fails) =>
      var s := p.creating[c].session;
      if fails then
        p.(creating := p.creating - {c}, holder := None, closed := p.closed + [s], failures := p.failures + 1)
      else
        p.(creating := p.creating - {c}, holder := None, lent := p.lent[c := s])
    case PutBack(c) =>
      var s := p.lent[c];
      if |p.idle| < p.max then p.(idle := p.idle + [s], lent := p.lent - {c}, releasing := p.releasing + {c})
      else p.(closed := p.closed + [s], lent := p.lent - {c}, releasing := p.releasing + {c})
    case Release(c) => p.(used := p.used - 1, releasing := p.releasing - {c})
  }

  predicate EnabledRun(p: Pool, actions: seq<Action>)
    decreases |actions|
  {
    actions == [] || (Enabled(p, actions[0]) && EnabledRun(Apply(p, actions[0]), actions[1..]))
  }

  function Run(p: Pool, actions: seq<Action>): Pool
    requires EnabledRun(p, actions)
    decreases |actions|
  {
    if actions == [] then p else Run(Apply(p, actions[0]), actions[1..])
  }

  // ----- start and end ---------------------------------------------------------

  datatype WarmUp = OpenFails | LoginFails | Warm

  function Fresh(max: nat): Pool {
    Pool(max, [], 0, None, {}, map[], map[], {}, 0, [], 0)
  }

  function WarmOne(p: Pool, w: WarmUp): Pool {
    match w
    case OpenFails => p
    case LoginFails => p.(openCount := p.openCount + 1, closed := p.closed + [p.openCount])
    case Warm => p.(openCount := p.openCount + 1, idle := p.idle + [p.openCount])
  }

  function WarmAll(p: Pool, ws: seq<WarmUp>): Pool {
    if ws == [] then p else WarmOne(WarmAll(p, ws[..|ws| - 1]), ws[|ws| - 1])
  }

  predicate Quiet(p: Pool) {
    p.selecting == {} && p.creating == map[] && p.lent == map[] && p.releasing == {}
  }

  function Drained(p: Pool): Pool {
    p.(idle := [], closed := p.closed + p.idle)
  }

  // ----- where a session is ------------------------------------------------------

  ghost function Borrowers(p: Pool, s: Session): set<Call> {
    set c | c in p.lent && p.lent[c] == s
  }

  ghost function Makers(p: Pool, s: Session): set<Call> {
    set c | c in p.creating && p.creating[c] == LoggingIn(s)
  }

  /** How many places hold session `s`: entries of the idle channel, borrowers, calls that
      are logging it in, and times it was closed. */
  ghost function Places(p: Pool, s: Session): nat {
    multiset(p.idle)[s] + |Borrowers(p, s)| + |Makers(p, s)| + multiset(p.closed)[s]
  }

  ghost predicate OnePlaceEach(p: Pool) {
    forall s: Session :: Places(p, s) == if s < p.openCount then 1 else 0
  }

  ghost predicate PermitsAddUp(p: Pool) {
    p.used == |p.selecting| + |p.creating| + |p.lent| + |p.releasing| + p.failures
  }

  ghost predicate OnePhase(p: Pool, c: Call) {
    && (c in p.selecting ==> c !in p.creating && c !in p.lent && c !in p.releasing)
    && (c in p.creating ==> c !in p.lent && c !in p.releasing)
    && (c in p.lent ==> c !in p.releasing)
    && ((c in p.creating && p.creating[c] != AtLock) <==> p.holder == Some(c))
  }

  ghost predicate OnePhaseEach(p: Pool) {
    forall c :: OnePhase(p, c)
  }

  ghost predicate Bounded(p: Pool) {
    p.used <= p.max && |p.idle| + |p.creating| + |p.lent| <= p.max
  }

  ghost predicate Inv(p: Pool) {
    OnePhaseEach(p) && PermitsAddUp(p) && Bounded(p) && OnePlaceEach(p)
  }

  // ----- one step --------------------------------------------------------------------

  lemma PhasesKept(p: Pool, a: Action)
    requires OnePhaseEach(p) && Enabled(p, a)
    ensures OnePhaseEach(Apply(p, a))
  {
    forall c ensures OnePhase(Apply(p, a), c) {
      assert OnePhase(p, c) && OnePhase(p, a.c);
    }
  }

  lemma MapSizes<V>(m: map<Call, V>, c: Call, v: V)
    ensures |m[c := v]| == |m| + (if c in m then 0 else 1)
    ensures |m - {c}| == |m| - (if c in m then 1 else 0)
  {
  }

  lemma SetSizes(s: set<Call>, c: Call)
    ensures |s + {c}| == |s| + (if c in s then 0 else 1)
    ensures |s - {c}| == |s| - (if c in s then 1 else 0)
  {
  }

  /** The four counts that creating and lending move, given how a step moved each. */
  ghost predicate Moved(p: Pool, q: Pool, selecting: int, creating: int, lent: int, failures: int) {
    && |q.selecting| == |p.selecting| + selecting && |q.creating| == |p.creating| + creating
    && |q.lent| == |p.lent| + lent && q.failures == p.failures + failures
    && q.used == p.used && q.releasing == p.releasing
  }

  lemma CreationMoves(p: Pool, a: Action)
    requires a.StartCreate? || a.Lock? || a.OpenSession? || a.Login?
    requires OnePhase(p, a.c) && Enabled(p, a)
    ensures Moved(p, Apply(p, a),
                  if a.StartCreate? then -1 else 0,
                  if a.StartCreate? then 1 else if a.Login? || (a.OpenSession? && a.fails) then -1 else 0,
                  if a.Login? && !a.fails then 1 else 0,
                  if (a.OpenSession? || a.Login?) && a.fails then 1 else 0)
  {
    match a {
      case StartCreate(c) =>
        SetSizes(p.selecting, c);
        MapSizes(p.creating, c, AtLock);
      case Lock(c) => MapSizes(p.creating, c, Opening);
      case OpenSession(c, _) => MapSizes(p.creating, c, LoggingIn(p.openCount));
      case Login(c, _) =>
        MapSizes(p.creating, c, AtLock);
        MapSizes(p.lent, c, p.creating[c].session);
      case _ =>
    }
  }

  lemma CreationKeepsPermits(p: Pool, a: Action)
    requires a.StartCreate? || a.Lock? || a.OpenSession? || a.Login?
    requires OnePhase(p, a.c) && PermitsAddUp(p) && Enabled(p, a)
    ensures PermitsAddUp(Apply(p, a))
  {
    CreationMoves(p, a);
  }

  lemma LendingKeepsPermits(p: Pool, a: Action)
    requires !(a.StartCreate? || a.Lock? || a.OpenSession? || a.Login?)
    requires OnePhase(p, a.c) && PermitsAddUp(p) && Enabled(p, a)
    ensures PermitsAddUp(Apply(p, a))
  {
    SetSizes(p.selecting, a.c);
    SetSizes(p.releasing, a.c);
    var q := Apply(p, a);
    if a.TakeIdle? {
      MapSizes(p.lent, a.c, p.idle[0]);
      assert |q.selecting| == |p.selecting| - 1 && |q.lent| == |p.lent| + 1;
    } else if a.PutBack? {
      MapSizes(p.lent, a.c, p.lent[a.c]);
      assert |q.lent| == |p.lent| - 1 && |q.releasing| == |p.releasing| + 1;
    }
  }

  lemma PermitsKept(p: Pool, a: Action)
    requires OnePhase(p, a.c) && PermitsAddUp(p) && Enabled(p, a)
    ensures PermitsAddUp(Apply(p, a))
  {
    if a.StartCreate? || a.Lock? || a.OpenSession? || a.Login? {
      CreationKeepsPermits(p, a);
    } else {
      LendingKeepsPermits(p, a);
    }
  }

  /** The bound rests on the permits: a session is created only by a call that found the idle
      channel empty while holding one. */
  lemma BoundKept(p: Pool, a: Action)
    requires OnePhase(p, a.c) && PermitsAddUp(p) && Bounded(p) && Enabled(p, a)
    ensures Bounded(Apply(p, a))
  {
    if a.StartCreate? || a.Lock? || a.OpenSession? || a.Login? {
      CreationKeepsBound(p, a);
    } else if a.TakeIdle? {
      MapSizes(p.lent, a.c, p.idle[0]);
    } else if a.PutBack? {
      MapSizes(p.lent, a.c, p.lent[a.c]);
    }
  }

  lemma CreationKeepsBound(p: Pool, a: Action)
    requires a.StartCreate? || a.Lock? || a.OpenSession? || a.Login?
    requires OnePhase(p, a.c) && PermitsAddUp(p) && Bounded(p) && Enabled(p, a)
    ensures Bounded(Apply(p, a))
  {
    CreationMoves(p, a);
    var q := Apply(p, a);
    assert |q.creating| + |q.lent| <= |p.creating| + |p.lent| + (if a.StartCreate? then 1 else 0);
    if a.StartCreate? {
      assert p.selecting != {};
      assert |p.selecting| > 0;
    }
  }

  /** ReturnSession's close-when-full branch is never taken. */
  lemma NeverFullOnReturn(p: Pool, c: Call)
    requires Inv(p) && Enabled(p, PutBack(c))
    ensures |p.idle| < p.max
  {
  }

  // ----- where sessions go -------------------------------------------------------------

  lemma LentMoves(p: Pool, q: Pool, c: Call, s: Session, x: Session)
    requires q.lent == p.lent - {c} || (c !in p.lent && q.lent == p.lent[c := s])
    ensures |Borrowers(q, x)| ==
              if c in p.lent then |Borrowers(p, x)| - (if p.lent[c] == x then 1 else 0)
              else |Borrowers(p, x)| + (if c in q.lent && x == s then 1 else 0)
  {
    if c in q.lent && x == s {
      assert Borrowers(q, x) == Borrowers(p, x) + {c};
    } else {
      assert Borrowers(q, x) == Borrowers(p, x) - {c};
    }
  }

  lemma MakersMove(p: Pool, q: Pool, c: Call, stage: Stage, x: Session)
    requires q.creating == p.creating - {c} || q.creating == p.creating[c := stage]
    ensures |Makers(q, x)| ==
              |Makers(p, x)| - (if c in p.creating && p.creating[c] == LoggingIn(x) then 1 else 0)
                             + (if c in q.creating && q.creating[c] == LoggingIn(x) then 1 else 0)
  {
    if c in q.creating && q.creating[c] == LoggingIn(x) {
      assert Makers(q, x) == Makers(p, x) - {c} + {c};
      assert c in p.creating && p.creating[c] == LoggingIn(x) <==> c in Makers(p, x);
    } else {
      assert Makers(q, x) == Makers(p, x) - {c};
    }
  }

  lemma HeadOut(s: seq<Session>)
    requires s != []
    ensures forall x: Session :: multiset(s)[x] == multiset(s[1..])[x] + (if x == s[0] then 1 else 0)
  {
    assert s == [s[0]] + s[1..];
  }

  lemma CreationKeepsPlaces(p: Pool, a: Action)
    requires a.StartCreate? || a.Lock? || a.OpenSession? || a.Login?
    requires OnePhase(p, a.c) && OnePlaceEach(p) && Enabled(p, a)
    ensures OnePlaceEach(Apply(p, a))
  {
    var q := Apply(p, a);
    var stage := if a.StartCreate? then AtLock else if a.Lock? then Opening else LoggingIn(p.openCount);
    forall x: Session ensures Places(q, x) == if x < q.openCount then 1 else 0 {
      assert Places(p, x) == if x < p.openCount then 1 else 0;
      MakersMove(p, q, a.c, stage, x);
      if a.Login? && !a.fails {
        LentMoves(p, q, a.c, p.creating[a.c].session, x);
      } else {
        assert Borrowers(q, x) == Borrowers(p, x);
      }
    }
  }

  lemma LendingKeepsPlaces(p: Pool, a: Action)
    requires a.TakeIdle? || a.PutBack?
    requires OnePhase(p, a.c) && OnePlaceEach(p) && Enabled(p, a)
    ensures OnePlaceEach(Apply(p, a))
  {
    var q := Apply(p, a);
    if a.TakeIdle? { HeadOut(p.idle); }
    forall x: Session ensures Places(q, x) == if x < q.openCount then 1 else 0 {
      assert Places(p, x) == if x < p.openCount then 1 else 0;
      LentMoves(p, q, a.c, if a.TakeIdle? then p.idle[0] else p.lent[a.c], x);
      assert Makers(q, x) == Makers(p, x);
    }
  }

  lemma PlacesKept(p: Pool, a: Action)
    requires OnePhase(p, a.c) && OnePlaceEach(p) && Enabled(p, a)
    ensures OnePlaceEach(Apply(p, a))
  {
    if a.StartCreate? || a.Lock? || a.OpenSession? || a.Login? {
      CreationKeepsPlaces(p, a);
    } else if a.TakeIdle? || a.PutBack? {
      LendingKeepsPlaces(p, a);
    } else {
      var q := Apply(p, a);
      forall x: Session ensures Places(q, x) == if x < q.openCount then 1 else 0 {
        assert Places(p, x) == if x < p.openCount then 1 else 0;
        assert Makers(q, x) == Makers(p, x) && Borrowers(q, x) == Borrowers(p, x);
      }
    }
  }

  lemma StepKeepsInv(p: Pool, a: Action)
    requires Inv(p) && Enabled(p, a)
    ensures Inv(Apply(p, a)) && Apply(p, a).max == p.max && p.failures <= Apply(p, a).failures
  {
    assert OnePhase(p, a.c);
    PhasesKept(p, a);
    PermitsKept(p, a);
    BoundKept(p, a);
    PlacesKept(p, a);
  }

  // ----- whole runs -----------------------------------------------------------------------

  lemma {:induction false} WarmUpGivesInv(max: nat, ws: seq<WarmUp>)
    requires |ws| <= max
    ensures var p := WarmAll(Fresh(max), ws);
            Inv(p) && Quiet(p) && p.max == max && p.failures == 0 && |p.idle| <= |ws|
  {
    if ws == [] {
      forall s: Session ensures Places(Fresh(max), s) == 0 {
        assert Borrowers(Fresh(max), s) == {} && Makers(Fresh(max), s) == {};
      }
    } else {
      WarmUpGivesInv(max, ws[..|ws| - 1]);
      WarmOneKeepsPlaces(WarmAll(Fresh(max), ws[..|ws| - 1]), ws[|ws| - 1]);
    }
  }

  function CountOf(ws: seq<WarmUp>, w: WarmUp): nat {
    multiset(ws)[w]
  }

  /** Warm-up leaves idle what could be opened and logged in, closed what could only be opened. */
  lemma {:induction false} WarmUpExactly(max: nat, ws: seq<WarmUp>)
    ensures var p := WarmAll(Fresh(max), ws);
            && |p.idle| == CountOf(ws, Warm) && |p.closed| == CountOf(ws, LoginFails)
            && p.openCount == CountOf(ws, Warm) + CountOf(ws, LoginFails) && p.used == 0
            && (forall i, j :: 0 <= i < j < |p.idle| ==> p.idle[i] < p.idle[j]) && (forall i :: 0 <= i < |p.idle| ==> p.idle[i] < p.openCount)
  {
    if ws != [] {
      WarmUpExactly(max, ws[..|ws| - 1]);
      assert ws == ws[..|ws| - 1] + [ws[|ws| - 1]];
    }
  }

  lemma WarmOneKeepsPlaces(p: Pool, w: WarmUp)
    requires OnePlaceEach(p) && OnePhaseEach(p)
    ensures OnePlaceEach(WarmOne(p, w)) && OnePhaseEach(WarmOne(p, w))
  {
    var q := WarmOne(p, w);
    forall c ensures OnePhase(q, c) {
      assert OnePhase(p, c);
    }
    forall s: Session ensures Places(q, s) == if s < q.openCount then 1 else 0 {
      assert Places(p, s) == if s < p.openCount then 1 else 0;
      assert Makers(q, s) == Makers(p, s) && Borrowers(q, s) == Borrowers(p, s);
    }
  }

  /** Every interleaving of GetSession and ReturnSession calls keeps the invariant: permits
      add up, the pool never holds more than `max` sessions, and every opened session is in
      exactly one place. Failed creations only add up. */
  lemma {:induction false} EveryRunKeepsInv(p: Pool, actions: seq<Action>)
    requires Inv(p) && EnabledRun(p, actions)
    ensures var q := Run(p, actions); Inv(q) && q.max == p.max && p.failures <= q.failures
    decreases |actions|
  {
    if actions != [] {
      var next := Apply(p, actions[0]);
      StepKeepsInv(p, actions[0]);
      EveryRunKeepsInv(next, actions[1..]);
    }
  }

  /** The sessions that calls of the run get out of the idle channel, in that order. */
  function Taken(p: Pool, actions: seq<Action>): seq<Session>
    requires EnabledRun(p, actions)
    decreases |actions|
  {
    if actions == [] then []
    else
      var next := Apply(p, actions[0]);
      (if actions[0].TakeIdle? then [next.lent[actions[0].c]] else []) + Taken(next, actions[1..])
  }

  /** The sessions that calls of the run give back, in that order. */
  function Returned(p: Pool, actions: seq<Action>): seq<Session>
    requires EnabledRun(p, actions)
    decreases |actions|
  {
    if actions == [] then []
    else (if actions[0].PutBack? then [p.lent[actions[0].c]] else []) + Returned(Apply(p, actions[0]), actions[1..])
  }

  /** Idle sessions are handed out again in the order in which they came back. */
  lemma {:induction false} FirstBackFirstOut(p: Pool, actions: seq<Action>)
    requires Inv(p) && EnabledRun(p, actions)
    ensures p.idle + Returned(p, actions) == Taken(p, actions) + Run(p, actions).idle
    decreases |actions|
  {
    if actions != [] {
      var a, next := actions[0], Apply(p, actions[0]);
      var got, back := if a.TakeIdle? then [next.lent[a.c]] else [], if a.PutBack? then [p.lent[a.c]] else [];
      StepKeepsInv(p, a);
      if a.PutBack? { NeverFullOnReturn(p, a.c); }
      IdleMoves(p, a);
      FirstBackFirstOut(next, actions[1..]);
      Rearrange(p.idle, back, Returned(next, actions[1..]), got, next.idle, Taken(next, actions[1..]), Run(next, actions[1..]).idle);
    }
  }

  lemma IdleMoves(p: Pool, a: Action)
    requires Enabled(p, a) && (a.PutBack? ==> |p.idle| < p.max)
    ensures var next := Apply(p, a);
            p.idle + (if a.PutBack? then [p.lent[a.c]] else []) == (if a.TakeIdle? then [next.lent[a.c]] else []) + next.idle
  {
    if a.TakeIdle? { assert p.idle == [p.idle[0]] + p.idle[1..]; }
  }

  lemma Rearrange(idle: seq<Session>, back: seq<Session>, later: seq<Session>, got: seq<Session>, next: seq<Session>,
                  taken: seq<Session>, end: seq<Session>)
    requires idle + back == got + next && next + later == taken + end
    ensures idle + (back + later) == (got + taken) + end
  {
    assert idle + (back + later) == (idle + back) + later;
    assert (got + next) + later == got + (next + later);
    assert got + (taken + end) == (got + taken) + end;
  }

  /** No session is ever in the hands of two borrowers, nor lent while idle or closed. */
  lemma NoSessionIsSharedInAnyRun(p: Pool, actions: seq<Action>, c: Call, d: Call)
    requires Inv(p) && EnabledRun(p, actions)
    requires var q := Run(p, actions); c in q.lent && d in q.lent
    ensures var q := Run(p, actions);
            && (q.lent[c] == q.lent[d] ==> c == d)
            && q.lent[c] !in q.idle && q.lent[c] !in q.closed && q.lent[c] < q.openCount
  {
    EveryRunKeepsInv(p, actions);
    var q := Run(p, actions);
    var s := q.lent[c];
    assert Places(q, s) == if s < q.openCount then 1 else 0;
    assert {c} <= Borrowers(q, s);
    SubsetSizes({c}, Borrowers(q, s));
    if q.lent[d] == s && c != d {
      assert {c, d} <= Borrowers(q, s);
      SubsetSizes({c, d}, Borrowers(q, s));
    }
  }

  lemma {:induction false} SubsetSizes(a: set<Call>, b: set<Call>)
    requires a <= b
    ensures |a| <= |b|
  {
    assert b == a + (b - a);
  }

  /** Close, once every call has ended: each session ever opened was closed exactly once. */
  lemma CloseClosesEachSessionOnce(p: Pool, actions: seq<Action>)
    requires Inv(p) && EnabledRun(p, actions) && Quiet(Run(p, actions))
    ensures var q := Drained(Run(p, actions));
            && |q.closed| == q.openCount
            && forall s: Session :: multiset(q.closed)[s] == if s < q.openCount then 1 else 0
  {
    EveryRunKeepsInv(p, actions);
    var r := Run(p, actions);
    var q := Drained(r);
    forall s: Session ensures multiset(q.closed)[s] == if s < q.openCount then 1 else 0 {
      assert Places(r, s) == if s < r.openCount then 1 else 0;
      assert Borrowers(r, s) == {} && Makers(r, s) == {};
    }
    EachOnceSize(q.closed, q.openCount);
  }

  lemma {:induction false} EachOnceSize(xs: seq<Session>, n: nat)
    requires forall s: Session :: multiset(xs)[s] == if s < n then 1 else 0
    ensures |xs| == n
  {
    if n == 0 {
      assert forall x: Session :: x in xs ==> x in multiset(xs);
    } else {
      assert multiset(xs)[n - 1] == 1;
      var i :| 0 <= i < |xs| && xs[i] == n - 1;
      var rest: seq<Session> := xs[..i] + xs[i + 1..];
      assert xs == xs[..i] + [xs[i]] + xs[i + 1..];
      assert multiset(xs) == multiset(rest) + multiset([xs[i]]);
      forall s: Session ensures multiset(rest)[s] == if s < n - 1 then 1 else 0 {
        assert multiset(xs)[s] == if s < n then 1 else 0;
        assert multiset(xs)[s] == multiset(rest)[s] + (if s == n - 1 then 1 else 0);
      }
      EachOnceSize(rest, n - 1);
    }
  }

  // ----- permits that never come back -----------------------------------------------------

  /** A failed on-demand creation keeps its permit for ever: from then on at most
      `max - failures` calls can hold a session, and after `max` of them none can start. */
  lemma FailedCreationsShrinkThePool(p: Pool, actions: seq<Action>)
    requires Inv(p) && EnabledRun(p, actions)
    ensures var q := Run(p, actions);
            && |q.lent| <= q.max - q.failures
            && (Quiet(q) ==> q.used == q.failures)
            && (p.failures == p.max ==> q.failures == q.max && q.lent == map[] && forall c :: !Enabled(q, Acquire(c)))
  {
    EveryRunKeepsInv(p, actions);
    var q := Run(p, actions);
    assert |q.lent| == 0 ==> q.lent == map[] by {
      if q.lent != map[] {
        var c :| c in q.lent;
        MapSizes(q.lent, c, 0);
      }
    }
  }

  function FailingCall(c: Call): seq<Action> {
    [Acquire(c), StartCreate(c), Lock(c), OpenSession(c, true)]
  }

  /** That state is reached by as many GetSession calls as the pool has permits, when the
      token refuses to open sessions for a while. */
  lemma {:induction false} ExhaustionIsReachable(p: Pool) returns (actions: seq<Action>)
    requires Inv(p) && Quiet(p) && p.idle == []
    ensures EnabledRun(p, actions) && |actions| == 4 * (p.max - p.failures)
    ensures var q := Run(p, actions); q.failures == q.max && Quiet(q)
    decreases p.max - p.failures
  {
    if p.failures == p.max {
      actions := [];
    } else {
      assert p.holder.Some? ==> OnePhase(p, p.holder.value);
      var p1 := Apply(p, Acquire(0));
      var p2 := Apply(p1, StartCreate(0));
      var p3 := Apply(p2, Lock(0));
      var p4 := Apply(p3, OpenSession(0, true));
      StepKeepsInv(p, Acquire(0));
      StepKeepsInv(p1, StartCreate(0));
      StepKeepsInv(p2, Lock(0));
      StepKeepsInv(p3, OpenSession(0, true));
      var rest := ExhaustionIsReachable(p4);
      actions := FailingCall(0) + rest;
      RunsConcatenate(p, FailingCall(0), rest, p4) by {
        assert FailingCall(0)[1..] == [StartCreate(0), Lock(0), OpenSession(0, true)];
        assert FailingCall(0)[1..][1..] == [Lock(0), OpenSession(0, true)];
        assert FailingCall(0)[1..][1..][1..] == [OpenSession(0, true)];
        assert FailingCall(0)[1..][1..][1..][1..] == [];
        assert EnabledRun(p3, [OpenSession(0, true)]) && Run(p3, [OpenSession(0, true)]) == p4;
        assert EnabledRun(p2, FailingCall(0)[1..][1..]) && Run(p2, FailingCall(0)[1..][1..]) == p4;
        assert EnabledRun(p1, FailingCall(0)[1..]) && Run(p1, FailingCall(0)[1..]) == p4;
      }
    }
  }

  lemma {:induction false} RunsConcatenate(p: Pool, first: seq<Action>, second: seq<Action>, q: Pool)
    requires EnabledRun(p, first) && Run(p, first) == q && EnabledRun(q, second)
    ensures EnabledRun(p, first + second) && Run(p, first + second) == Run(q, second)
    decreases |first|
  {
    if first == [] {
      assert first + second == second;
    } else {
      assert (first + second)[1..] == first[1..] + second;
      RunsConcatenate(Apply(p, first[0]), first[1..], second, q);
    }
  }
}
