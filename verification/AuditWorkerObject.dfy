// The AuditWorker object: SendEvent and the worker loop cut at the points where goroutines
// interleave, and Close, which waits for whatever schedule the workers still run.
module AuditWorkerObjects {
  import opened AuditQueues

  class AuditWorker {
    const hasClient: bool
    const capacity: nat
    var channel: seq<Event>
    var blocked: multiset<Event>
    var workers: seq<Worker>
    var cancelled: bool
    var closed: bool
    ghost var submitted: seq<Event>
    ghost var accepted: seq<Event>
    ghost var dropped: seq<Event>
    ghost var received: seq<Event>
    var handed: seq<Event>

    ghost function View(): Queue
      reads this
    {
      Queue(capacity, channel, blocked, workers, cancelled, closed, submitted, accepted, dropped, received, handed)
    }

    /** Workers are started only if there is a recorder to hand events to. */
    constructor (hasClient: bool, capacity: nat, n: nat)
      ensures this.hasClient == hasClient
      ensures View() == Start(capacity, if hasClient then n else 0) && Accounted(View())
    {
      this.hasClient, this.capacity := hasClient, capacity;
      channel, blocked, cancelled, closed := [], multiset{}, false, false;
      workers := seq(if hasClient then n else 0, _ => Waiting);
      submitted, accepted, dropped, received, handed := [], [], [], [], [];
      new;
      NobodyHoldsAtStart(if hasClient then n else 0);
    }

    /** The first look of SendEvent's select; `preferDone` decides when both room and
        cancellation are there. True if the sender has to wait. */
    method SendEvent(e: Event, preferDone: bool) returns (waits: bool)
      requires !closed
      modifies this
      ensures !hasClient ==> View() == old(View()) && !waits
      ensures hasClient && waits ==> old(Enabled(View(), SendBlocks(e))) && View() == Apply(old(View()), SendBlocks(e))
      ensures hasClient && !waits ==>
                || (old(Enabled(View(), SendNow(e))) && View() == Apply(old(View()), SendNow(e)))
                || (old(Enabled(View(), SendRefused(e))) && View() == Apply(old(View()), SendRefused(e)))
      ensures hasClient && !old(cancelled) && |old(channel)| < capacity ==> channel == old(channel) + [e]
    {
      if !hasClient {
        return false;
      }
      submitted := submitted + [e];
      if |channel| < capacity && !(cancelled && preferDone) {
        channel, accepted := channel + [e], accepted + [e];
        return false;
      }
      if cancelled {
        dropped := dropped + [e];
        return false;
      }
      blocked := blocked + multiset{e};
      return true;
    }

    /** A waiting sender goes on: it gets the room there is, or gives up. */
    method FinishSend(e: Event, givesUp: bool)
      requires !closed && e in blocked
      modifies this
      ensures View() == if givesUp || |old(channel)| >= capacity then Apply(old(View()), SendGivesUp(e))
                        else Apply(old(View()), SendLate(e))
    {
      blocked := blocked - multiset{e};
      if givesUp || |channel| >= capacity {
        dropped := dropped + [e];
      } else {
        channel, accepted := channel + [e], accepted + [e];
      }
    }

    /** One round of a worker's loop up to the next point where it can be preempted. */
    method WorkerRound(w: nat, preferDone: bool) returns (moved: bool)
      requires w < |workers|
      modifies this
      ensures moved ==> exists a :: IsWorkerStep(a) && a.w == w && old(Enabled(View(), a)) && View() == Apply(old(View()), a)
      ensures !moved ==> View() == old(View())
      ensures old(cancelled) && !old(workers)[w].Stopped? ==> moved
    {
      match workers[w] {
        case Stopped =>
          return false;
        case Holding(event) =>
          handed := handed + [event];
          workers := workers[w := Waiting];
          assert View() == Apply(old(View()), Hand(w));
          return true;
        case Waiting =>
          if cancelled && (preferDone || channel == []) {
            workers := workers[w := Stopped];
            assert View() == Apply(old(View()), StopCancelled(w));
            return true;
          }
          if channel != [] {
            received := received + [channel[0]];
            workers := workers[w := Holding(channel[0])];
            channel := channel[1..];
            assert View() == Apply(old(View()), Take(w));
            return true;
          }
          if closed {
            workers := workers[w := Stopped];
            assert View() == Apply(old(View()), StopClosed(w));
            return true;
          }
          return false;
      }
    }

    /** Waiting senders leave once the worker context is done, or get the room there is. */
    method LetSendersGo()
      requires Accounted(View()) && !closed && cancelled
      modifies this
      ensures Accounted(View()) && !closed && cancelled && blocked == multiset{}
      ensures old(accepted) <= accepted && handed == old(handed)
    {
      while blocked != multiset{}
        invariant Accounted(View()) && !closed && cancelled && old(accepted) <= accepted && handed == old(handed)
        decreases |blocked|
      {
        var e :| e in blocked;
        var givesUp := *;
        StepKeepsAccount(View(), if givesUp || |channel| >= capacity then SendGivesUp(e) else SendLate(e));
        FinishSend(e, givesUp);
      }
    }

    /** Cancel, close the channel, wait for the workers, in whatever order they run. The process
        panics when the channel is closed already, and also when a sender still waits in its
        select as the channel is closed and is `unlucky` enough to choose the send. */
    method Close(unlucky: bool) returns (panics: bool)
      requires Accounted(View())
      modifies this
      ensures panics <==> hasClient && (old(closed) || (unlucky && old(blocked) != multiset{}))
      ensures !hasClient ==> View() == old(View())
      ensures panics ==> View() == old(View()).(cancelled := true, closed := true)
      ensures hasClient && !panics ==> Accounted(View()) && closed && AllStopped(View()) && blocked == multiset{}
      ensures hasClient && !panics ==>
                old(accepted) <= accepted && forall e: Event :: Count(accepted, e) == Count(handed, e) + Count(channel, e)
    {
      if !hasClient {
        return false;
      }
      if !cancelled {
        StepKeepsAccount(View(), Cancel);
      }
      cancelled := true;
      if closed {
        return true;
      }
      if unlucky && blocked != multiset{} {
        closed := true;
        return true;
      }
      LetSendersGo();
      StepKeepsAccount(View(), CloseChannel);
      closed := true;
      while exists w :: 0 <= w < |workers| && !workers[w].Stopped?
        invariant Accounted(View()) && closed && cancelled && old(accepted) <= accepted
        decreases Remaining(View())
      {
        var w :| 0 <= w < |workers| && !workers[w].Stopped?;
        var preferDone := *;
        ghost var before := View();
        var moved := WorkerRound(w, preferDone);
        ghost var a :| IsWorkerStep(a) && Enabled(before, a) && View() == Apply(before, a);
        StepKeepsAccount(before, a);
        StepAfterCloseShrinks(before, a);
      }
      NothingHeldAtTheEnd(View());
      panics := false;
    }
  }
}
