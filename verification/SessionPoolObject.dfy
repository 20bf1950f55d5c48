// The pool object. NewSessionPool warms it up in a loop, GetSession and ReturnSession are
// split at the points where other goroutines can run, Close drains the idle channel.
module SessionPoolObjects {
  import opened Wrappers
  import opened SessionPools
  import opened Tokens

  datatype PoolError = LoadFailed | InitializeFailed | SlotsUnreadable | NoSlots | TokenNotFound

  /** The first readable token with exactly that label. */
  function SlotNamed(slots: seq<TokenSlot>, tokenLabel: string): Option<nat> {
    FirstSlot(slots, (text: string) => text == tokenLabel)
  }

  /** The slot named is the first whose token is readable and carries exactly that label. */
  lemma NamedExactly(slots: seq<TokenSlot>, tokenLabel: string)
    ensures forall i :: 0 <= i < |slots| && slots[i].info == Some(tokenLabel)
                        && (forall j :: 0 <= j < i ==> slots[j].info != Some(tokenLabel)) ==>
              SlotNamed(slots, tokenLabel) == Some(slots[i].number)
    ensures SlotNamed(slots, tokenLabel).None? <==> forall i :: 0 <= i < |slots| ==> slots[i].info != Some(tokenLabel)
  {
    var fits := (text: string) => text == tokenLabel;
    FirstSlotExactly(slots, fits);
    forall i | 0 <= i < |slots| && slots[i].info == Some(tokenLabel) && (forall j :: 0 <= j < i ==> slots[j].info != Some(tokenLabel))
      ensures FirstSlot(slots, fits) == Some(slots[i].number)
    {
      assert FirstFit(slots, fits, i);
    }
    SameFits(slots, fits, tokenLabel);
  }

  lemma {:induction false} SameFits(slots: seq<TokenSlot>, fits: string -> bool, tokenLabel: string)
    requires forall text :: fits(text) <==> text == tokenLabel
    ensures SlotNamed(slots, tokenLabel) == FirstSlot(slots, fits)
  {
    if slots != [] { SameFits(slots[1..], fits, tokenLabel); }
  }

  method NewSessionPool(loads: bool, initializes: bool, slots: Option<seq<TokenSlot>>, tokenLabel: string,
                        max: nat, outcomes: seq<WarmUp>)
    returns (r: Result<SessionPool, PoolError>)
    requires |outcomes| >= if max < 2 then max else 2
    ensures r.Err? ==> r.error == (if !loads then LoadFailed else if !initializes then InitializeFailed
                                   else if slots.None? then SlotsUnreadable else if slots.value == [] then NoSlots
                                   else TokenNotFound)
    ensures r.Ok? <==> loads && initializes && slots.Some? && SlotNamed(slots.value, tokenLabel).Some?
    ensures r.Ok? ==> && fresh(r.value) && r.value.initialized && !r.value.finalised && r.value.maxSessions == max
                      && Some(r.value.slotId) == SlotNamed(slots.value, tokenLabel)
                      && r.value.View() == WarmAll(Fresh(max), outcomes[..if max < 2 then max else 2])
  {
    if !loads {
      return Err(LoadFailed);
    }
    if !initializes {
      return Err(InitializeFailed);
    }
    if slots.None? {
      return Err(SlotsUnreadable);
    }
    if |slots.value| == 0 {
      return Err(NoSlots);
    }
    for i := 0 to |slots.value|
      invariant SlotNamed(slots.value, tokenLabel) == SlotNamed(slots.value[i..], tokenLabel)
    {
      if slots.value[i].info == Some(tokenLabel) {
        var pool := new SessionPool(slots.value[i].number, max, outcomes);
        return Ok(pool);
      }
    }
    return Err(TokenNotFound);
  }

  class SessionPool {
    const slotId: nat
    const maxSessions: nat
    var initialized: bool
    var sessions: seq<Session>
    var permits: nat
    var mutex: Option<Call>
    var selecting: set<Call>
    var creating: map<Call, Stage>
    var lent: map<Call, Session>
    var releasing: set<Call>
    var openCount: nat
    var closed: seq<Session>
    var failures: nat
    var logouts: seq<Session>
    var finalised: bool

    ghost function View(): Pool
      reads this
    {
      Pool(maxSessions, sessions, permits, mutex, selecting, creating, lent, releasing, openCount, closed, failures)
    }

    /** Two sessions are opened in advance, fewer if the pool is smaller; failures are skipped. */
    constructor (slotId: nat, max: nat, outcomes: seq<WarmUp>)
      requires |outcomes| >= if max < 2 then max else 2
      ensures initialized && this.slotId == slotId && maxSessions == max && logouts == [] && !finalised
      ensures View() == WarmAll(Fresh(max), outcomes[..if max < 2 then max else 2])
      ensures Inv(View()) && Quiet(View())
    {
      this.slotId, maxSessions := slotId, max;
      initialized, logouts, finalised := false, [], false;
      sessions, permits, mutex, selecting, creating, lent := [], 0, None, {}, map[], map[];
      releasing, openCount, closed, failures := {}, 0, [], 0;
      new;
      var n := if max < 2 then max else 2;
      for i := 0 to n
        invariant maxSessions == max && logouts == [] && !finalised
        invariant View() == WarmAll(Fresh(max), outcomes[..i])
      {
        assert outcomes[..i + 1][..i] == outcomes[..i];
        if !outcomes[i].OpenFails? {
          var session := openCount;
          openCount := openCount + 1;
          if outcomes[i].LoginFails? {
            closed := closed + [session];
          } else {
            sessions := sessions + [session];
          }
        }
      }
      initialized := true;
      WarmUpGivesInv(max, outcomes[..n]);
    }

    /** GetSession, up to the semaphore: false when the pool is not initialised or the wait
        ends without a permit. */
    method AcquirePermit(c: Call, timedOut: bool) returns (ok: bool)
      requires !Elsewhere(View(), c)
      modifies this
      ensures ok ==> old(initialized) && old(Enabled(View(), Acquire(c))) && View() == Apply(old(View()), Acquire(c))
      ensures !ok ==> View() == old(View()) && (!old(initialized) || timedOut || old(permits) >= maxSessions)
      ensures initialized == old(initialized)
    {
      if !initialized {
        return false;
      }
      if timedOut || permits >= maxSessions {
        return false;
      }
      permits, selecting := permits + 1, selecting + {c};
      return true;
    }

    /** GetSession's select: an idle session, the cancelled context (either one if both are
        ready), or else creation. */
    method Select(c: Call, cancelled: bool, preferCancel: bool) returns (session: Option<Session>)
      requires c in selecting && initialized
      modifies this
      ensures session.Some? ==> old(Enabled(View(), TakeIdle(c))) && View() == Apply(old(View()), TakeIdle(c)) && lent[c] == session.value
      ensures session.None? && cancelled ==> View() == Apply(old(View()), GiveUp(c))
      ensures session.None? && !cancelled ==> old(Enabled(View(), StartCreate(c))) && View() == Apply(old(View()), StartCreate(c))
      ensures !cancelled && old(sessions) != [] ==> session.Some?
      ensures initialized
    {
      selecting := selecting - {c};
      if sessions != [] && !(cancelled && preferCancel) {
        session := Some(sessions[0]);
        lent := lent[c := sessions[0]];
        sessions := sessions[1..];
      } else if cancelled {
        session := None;
        releasing := releasing + {c};
      } else {
        session := None;
        creating := creating[c := AtLock];
      }
    }

    method LockForCreate(c: Call)
      requires Enabled(View(), Lock(c))
      modifies this
      ensures View() == Apply(old(View()), Lock(c)) && initialized == old(initialized)
    {
      mutex := Some(c);
      creating := creating[c := Opening];
    }

    method OpenNew(c: Call, fails: bool) returns (ok: bool)
      requires Enabled(View(), OpenSession(c, fails))
      modifies this
      ensures View() == Apply(old(View()), OpenSession(c, fails)) && ok == !fails && initialized == old(initialized)
    {
      if fails {
        // The error is returned as it is: nothing releases the permit.
        creating, mutex, failures := creating - {c}, None, failures + 1;
        return false;
      }
      creating := creating[c := LoggingIn(openCount)];
      openCount := openCount + 1;
      return true;
    }

    method LoginNew(c: Call, fails: bool) returns (session: Option<Session>)
      requires Enabled(View(), Login(c, fails))
      modifies this
      ensures View() == Apply(old(View()), Login(c, fails)) && initialized == old(initialized)
      ensures session == if fails then None else Some(old(creating)[c].session)
    {
      var opening := creating[c].session;
      creating, mutex := creating - {c}, None;
      if fails {
        closed, failures := closed + [opening], failures + 1;
        return None;
      }
      lent := lent[c := opening];
      return Some(opening);
    }

    /** ReturnSession, up to the release of the permit; a closed pool ignores the call. */
    method PutSessionBack(c: Call)
      requires Enabled(View(), PutBack(c))
      modifies this
      ensures View() == if old(initialized) then Apply(old(View()), PutBack(c)) else old(View())
      ensures initialized == old(initialized)
    {
      if !initialized {
        return;
      }
      var session := lent[c];
      lent := lent - {c};
      if |sessions| < maxSessions {
        sessions := sessions + [session];
      } else {
        closed := closed + [session];
      }
      releasing := releasing + {c};
    }

    method ReleasePermit(c: Call)
      requires Enabled(View(), Release(c))
      modifies this
      ensures View() == Apply(old(View()), Release(c)) && initialized == old(initialized)
    {
      releasing, permits := releasing - {c}, permits - 1;
    }

    method Close()
      modifies this
      ensures !old(initialized) ==> View() == old(View()) && logouts == old(logouts) && finalised == old(finalised)
      ensures old(initialized) ==> View() == Drained(old(View())) && logouts == old(logouts) + old(sessions) && finalised
      ensures !initialized
    {
      if !initialized {
        return;
      }
      ghost var before := View();
      while sessions != []
        invariant View() == before.(idle := sessions, closed := closed)
        invariant closed + sessions == before.closed + before.idle
        invariant logouts + sessions == old(logouts) + before.idle
        decreases |sessions|
      {
        logouts := logouts + [sessions[0]];
        closed := closed + [sessions[0]];
        sessions := sessions[1..];
      }
      initialized, finalised := false, true;
    }
  }
}
