// The asynchronous audit queue: any number of senders, a bounded channel, several workers,
// and a shutdown that cancels first and closes the channel next. One action is one point at
// which goroutines interleave. The last five fields of a state are its history.
module AuditQueues {

  type Event = nat

  datatype Worker = Waiting | Holding(event: Event) | Stopped

  datatype Queue = Queue(capacity: nat, channel: seq<Event>, blocked: multiset<Event>, workers: seq<Worker>,
                         cancelled: bool, closed: bool,
                         submitted: seq<Event>, accepted: seq<Event>, dropped: seq<Event>,
                         received: seq<Event>, handed: seq<Event>)

  datatype Action =
    | SendNow(e: Event)        // room in the channel
    | SendBlocks(e: Event)     // no room: wait for at most 100 ms
    | SendRefused(e: Event)    // the worker context is done
    | SendLate(e: Event)       // a waiting sender gets room
    | SendGivesUp(e: Event)    // a waiting sender times out or sees the context done
    | Take(w: nat)
    | Hand(w: nat)
    | StopCancelled(w: nat)
    | StopClosed(w: nat)
    | Cancel
    | CloseChannel

  predicate Enabled(q: Queue, a: Action) {
    match a
    case SendNow(e) => !q.closed && |q.channel| < q.capacity
    case SendBlocks(e) => !q.closed && |q.channel| >= q.capacity && !q.cancelled
    case SendRefused(e) => !q.closed && q.cancelled
    case SendLate(e) => !q.closed && e in q.blocked && |q.channel| < q.capacity
    case SendGivesUp(e) => e in q.blocked
    case Take(w) => w < |q.workers| && q.workers[w].Waiting? && q.channel != []
    case Hand(w) => w < |q.workers| && q.workers[w].Holding?
    case StopCancelled(w) => w < |q.workers| && q.workers[w].Waiting? && q.cancelled
    case StopClosed(w) => w < |q.workers| && q.workers[w].Waiting? && q.closed && q.channel == []
    case Cancel => !q.cancelled
    case CloseChannel => q.cancelled && !q.closed && q.blocked == multiset{}
  }

  function Accept(q: Queue, e: Event): Queue {
    q.(channel := q.channel + [e], accepted := q.accepted + [e])
  }

  function Apply(q: Queue, a: Action): Queue
    requires Enabled(q, a)
  {
    match a
    case SendNow(e) => Accept(q, e).(submitted := q.submitted + [e])
    case SendBlocks(e) => q.(blocked := q.blocked + multiset{e}, submitted := q.submitted + [e])
    case SendRefused(e) => q.(dropped := q.dropped + [e], submitted := q.submitted + [e])
    case SendLate(e) => Accept(q, e).(blocked := q.blocked - multiset{e})
    case SendGivesUp(e) => q.(blocked := q.blocked - multiset{e}, dropped := q.dropped + [e])
    case Take(w) => q.(channel := q.channel[1..], workers := q.workers[w := Holding(q.channel[0])],
                       received := q.received + [q.channel[0]])
    case Hand(w) => q.(workers := q.workers[w := Waiting], handed := q.handed + [q.workers[w].event])
    case StopCancelled(w) => q.(workers := q.workers[w := Stopped])
    case StopClosed(w) => q.(workers := q.workers[w := Stopped])
    case Cancel => q.(cancelled := true)
    case CloseChannel => q.(closed := true)
  }

  predicate EnabledRun(q: Queue, actions: seq<Action>)
    decreases |actions|
  {
    actions == [] || (Enabled(q, actions[0]) && EnabledRun(Apply(q, actions[0]), actions[1..]))
  }

  function Run(q: Queue, actions: seq<Action>): Queue
    requires EnabledRun(q, actions)
    decreases |actions|
  {
    if actions == [] then q else Run(Apply(q, actions[0]), actions[1..])
  }

  function Start(capacity: nat, n: nat): Queue {
    Queue(capacity, [], multiset{}, seq(n, _ => Waiting), false, false, [], [], [], [], [])
  }

  // ----- every event is accounted for -------------------------------------------------

  function InHands(ws: seq<Worker>): multiset<Event> {
    if ws == [] then multiset{}
    else (if ws[0].Holding? then multiset{ws[0].event} else multiset{}) + InHands(ws[1..])
  }

  function Held(w: Worker): multiset<Event> {
    if w.Holding? then multiset{w.event} else multiset{}
  }

  lemma {:induction false} InHandsUpdate(ws: seq<Worker>, i: nat, w: Worker, e: Event)
    requires i < |ws|
    ensures InHands(ws[i := w])[e] + Held(ws[i])[e] == InHands(ws)[e] + Held(w)[e]
  {
    if i == 0 {
      assert ws[i := w][1..] == ws[1..];
    } else {
      assert ws[i := w][1..] == ws[1..][i - 1 := w];
      InHandsUpdate(ws[1..], i - 1, w, e);
    }
  }

  function Count(s: seq<Event>, e: Event): nat {
    multiset(s)[e]
  }

  lemma CountAppend(s: seq<Event>, x: Event)
    ensures forall e :: Count(s + [x], e) == Count(s, e) + (if e == x then 1 else 0)
  {
  }

  lemma CountConcat(s: seq<Event>, t: seq<Event>)
    ensures forall e :: Count(s + t, e) == Count(s, e) + Count(t, e)
  {
  }

  /** Submitted events were dropped, wait to be sent, or were accepted. */
  ghost predicate SubmittedBalance(q: Queue) {
    forall e: Event :: SubmittedOf(q, e)
  }

  ghost predicate SubmittedOf(q: Queue, e: Event) {
    Count(q.submitted, e) == Count(q.dropped, e) + q.blocked[e] + Count(q.accepted, e)
  }

  /** Events taken from the channel were handed to the recorder or are in a worker's hands. */
  ghost predicate ReceivedBalance(q: Queue) {
    forall e: Event :: ReceivedOf(q, e)
  }

  ghost predicate ReceivedOf(q: Queue, e: Event) {
    Count(q.received, e) == Count(q.handed, e) + InHands(q.workers)[e]
  }

  /** Events are taken from the channel in the order in which it accepted them. */
  ghost predicate InOrder(q: Queue) {
    |q.channel| <= q.capacity && q.accepted == q.received + q.channel
    && (q.closed ==> q.cancelled && q.blocked == multiset{})
  }

  ghost predicate Accounted(q: Queue) {
    SubmittedBalance(q) && ReceivedBalance(q) && InOrder(q)
  }

  predicate IsWorkerStep(a: Action) {
    a.Take? || a.Hand? || a.StopCancelled? || a.StopClosed?
  }

  lemma SubmittedOfKept(q: Queue, a: Action, e: Event)
    requires SubmittedOf(q, e) && Enabled(q, a)
    ensures SubmittedOf(Apply(q, a), e)
  {
  }

  lemma ReceivedOfKept(q: Queue, a: Action, e: Event)
    requires ReceivedOf(q, e) && Enabled(q, a)
    ensures ReceivedOf(Apply(q, a), e)
  {
    match a {
      case Take(w) =>
        InHandsUpdate(q.workers, w, Holding(q.channel[0]), e);
        CountAppend(q.received, q.channel[0]);
      case Hand(w) =>
        InHandsUpdate(q.workers, w, Waiting, e);
        CountAppend(q.handed, q.workers[w].event);
      case StopCancelled(w) => InHandsUpdate(q.workers, w, Stopped, e);
      case StopClosed(w) => InHandsUpdate(q.workers, w, Stopped, e);
      case _ =>
    }
  }

  lemma StepKeepsInOrder(q: Queue, a: Action)
    requires InOrder(q) && Enabled(q, a)
    ensures InOrder(Apply(q, a))
  {
  }

  lemma StepKeepsAccount(q: Queue, a: Action)
    requires Accounted(q) && Enabled(q, a)
    ensures Accounted(Apply(q, a))
  {
    forall e: Event ensures SubmittedOf(Apply(q, a), e) && ReceivedOf(Apply(q, a), e) {
      SubmittedOfKept(q, a, e);
      ReceivedOfKept(q, a, e);
    }
    StepKeepsInOrder(q, a);
  }

  lemma {:induction false} NobodyHoldsAtStart(n: nat)
    ensures InHands(seq(n, _ => Waiting)) == multiset{}
  {
    if n > 0 {
      assert seq(n, _ => Waiting)[1..] == seq(n - 1, _ => Waiting);
      NobodyHoldsAtStart(n - 1);
    }
  }

  lemma {:induction false} EveryRunKeepsAccount(q: Queue, actions: seq<Action>)
    requires Accounted(q) && EnabledRun(q, actions)
    ensures Accounted(Run(q, actions)) && |Run(q, actions).workers| == |q.workers|
    decreases |actions|
  {
    if actions != [] {
      StepKeepsAccount(q, actions[0]);
      EveryRunKeepsAccount(Apply(q, actions[0]), actions[1..]);
    }
  }

  /** From the start on, in every interleaving: nothing is handed over that was not submitted,
      nothing more often than it was submitted, and events leave the channel in the order in
      which it accepted them. */
  lemma NoEventIsRecordedTwice(capacity: nat, n: nat, actions: seq<Action>)
    requires EnabledRun(Start(capacity, n), actions)
    ensures var q := Run(Start(capacity, n), actions);
            && (forall e: Event :: Count(q.submitted, e) ==
                  Count(q.dropped, e) + q.blocked[e] + Count(q.channel, e) + InHands(q.workers)[e] + Count(q.handed, e))
            && (forall e: Event :: Count(q.handed, e) <= Count(q.submitted, e))
            && q.received <= q.accepted && |q.channel| <= capacity
  {
    NobodyHoldsAtStart(n);
    EveryRunKeepsAccount(Start(capacity, n), actions);
    RunKeepsCapacity(Start(capacity, n), actions);
    var q := Run(Start(capacity, n), actions);
    CountConcat(q.received, q.channel);
    forall e: Event
      ensures Count(q.submitted, e) ==
                Count(q.dropped, e) + q.blocked[e] + Count(q.channel, e) + InHands(q.workers)[e] + Count(q.handed, e)
    {
      assert SubmittedOf(q, e) && ReceivedOf(q, e);
    }
  }

  lemma {:induction false} RunKeepsCapacity(q: Queue, actions: seq<Action>)
    requires EnabledRun(q, actions)
    ensures Run(q, actions).capacity == q.capacity
    decreases |actions|
  {
    if actions != [] { RunKeepsCapacity(Apply(q, actions[0]), actions[1..]); }
  }

  /** Nobody cancels, and every sender finds room. */
  ghost predicate Roomy(q: Queue, actions: seq<Action>)
    requires EnabledRun(q, actions)
    decreases |actions|
  {
    actions == [] || (!actions[0].Cancel? && |q.channel| < q.capacity && Roomy(Apply(q, actions[0]), actions[1..]))
  }

  /** An event is dropped or has to wait only when the channel is full or the worker is being
      closed. */
  lemma {:induction false} NothingDroppedWithRoom(q: Queue, actions: seq<Action>)
    requires EnabledRun(q, actions) && Roomy(q, actions) && !q.cancelled && q.blocked == multiset{}
    ensures var r := Run(q, actions); r.dropped == q.dropped && r.blocked == multiset{} && !r.cancelled
    decreases |actions|
  {
    if actions != [] {
      NothingDroppedWithRoom(Apply(q, actions[0]), actions[1..]);
    }
  }

  /** No worker stops before the cancellation. */
  lemma {:induction false} WorkersLiveUntilCancelled(q: Queue, actions: seq<Action>)
    requires EnabledRun(q, actions) && !q.cancelled && !q.closed && Cancel !in actions
    requires forall w :: 0 <= w < |q.workers| ==> !q.workers[w].Stopped?
    ensures var r := Run(q, actions);
            !r.cancelled && !r.closed && |r.workers| == |q.workers| && forall w :: 0 <= w < |r.workers| ==> !r.workers[w].Stopped?
    decreases |actions|
  {
    if actions != [] {
      assert actions[0] in actions;
      WorkersLiveUntilCancelled(Apply(q, actions[0]), actions[1..]);
    }
  }

  // ----- the order of recording ------------------------------------------------------------

  ghost predicate OneWorkerInOrder(q: Queue) {
    && |q.workers| == 1
    && q.received == q.handed + (if q.workers[0].Holding? then [q.workers[0].event] else [])
  }

  /** A single worker hands events over in the order of acceptance. */
  lemma {:induction false} OneWorkerHandsInOrder(q: Queue, actions: seq<Action>)
    requires Accounted(q) && OneWorkerInOrder(q) && EnabledRun(q, actions)
    ensures OneWorkerInOrder(Run(q, actions)) && Run(q, actions).handed <= Run(q, actions).accepted
    decreases |actions|
  {
    if actions != [] {
      StepKeepsAccount(q, actions[0]);
      StepKeepsOrder(q, actions[0]);
      OneWorkerHandsInOrder(Apply(q, actions[0]), actions[1..]);
    }
  }

  lemma StepKeepsOrder(q: Queue, a: Action)
    requires OneWorkerInOrder(q) && Enabled(q, a)
    ensures OneWorkerInOrder(Apply(q, a))
  {
  }

  lemma {:induction false} NobodyHands(q: Queue, actions: seq<Action>)
    requires EnabledRun(q, actions) && q.workers == []
    ensures Run(q, actions).handed == q.handed
    decreases |actions|
  {
    if actions != [] {
      NobodyHands(Apply(q, actions[0]), actions[1..]);
    }
  }

  const REORDER := [SendNow(1), Take(0), SendNow(2), Take(1), Hand(1)]

  /** Two workers of any number need not: the second event can be recorded before the first. */
  lemma TwoWorkersReorder(capacity: nat, n: nat)
    requires capacity >= 1 && n >= 2
    ensures EnabledRun(Start(capacity, n), REORDER)
    ensures Run(Start(capacity, n), REORDER).accepted == [1, 2] && Run(Start(capacity, n), REORDER).handed == [2]
  {
    var s1 := Apply(Start(capacity, n), SendNow(1));
    var s2 := Apply(s1, Take(0));
    var s3 := Apply(s2, SendNow(2));
    var s4 := Apply(s3, Take(1));
    RunLonger(s4, Hand(1), []);
    RunLonger(s3, Take(1), [Hand(1)]);
    RunLonger(s2, SendNow(2), [Take(1), Hand(1)]);
    RunLonger(s1, Take(0), [SendNow(2), Take(1), Hand(1)]);
    RunLonger(Start(capacity, n), SendNow(1), [Take(0), SendNow(2), Take(1), Hand(1)]);
  }

  /** Every run hands events over in the order of acceptance exactly when there is at most
      one worker. */
  lemma OrderKeptExactly(capacity: nat, n: nat)
    requires capacity >= 1
    ensures n <= 1 <==> forall actions :: EnabledRun(Start(capacity, n), actions) ==>
                          Run(Start(capacity, n), actions).handed <= Run(Start(capacity, n), actions).accepted
  {
    var start := Start(capacity, n);
    if n <= 1 {
      NobodyHoldsAtStart(n);
      forall actions | EnabledRun(start, actions) ensures Run(start, actions).handed <= Run(start, actions).accepted {
        if n == 0 { NobodyHands(start, actions); } else { OneWorkerHandsInOrder(start, actions); }
      }
    } else {
      TwoWorkersReorder(capacity, n);
      assert !([2] <= [1, 2]);
    }
  }

  lemma RunLonger(q: Queue, a: Action, rest: seq<Action>)
    requires Enabled(q, a) && EnabledRun(Apply(q, a), rest)
    ensures EnabledRun(q, [a] + rest) && Run(q, [a] + rest) == Run(Apply(q, a), rest)
  {
  }

  // ----- shutdown ------------------------------------------------------------------------------

  function Effort(w: Worker): nat {
    match w
    case Waiting => 1
    case Holding(_) => 2
    case Stopped => 0
  }

  function Efforts(ws: seq<Worker>): nat {
    if ws == [] then 0 else Effort(ws[0]) + Efforts(ws[1..])
  }

  /** What is left to do once the channel is closed. */
  function Remaining(q: Queue): nat {
    2 * |q.channel| + Efforts(q.workers)
  }

  lemma {:induction false} EffortsUpdate(ws: seq<Worker>, i: nat, w: Worker)
    requires i < |ws|
    ensures Efforts(ws[i := w]) + Effort(ws[i]) == Efforts(ws) + Effort(w)
  {
    if i == 0 {
      assert ws[i := w][1..] == ws[1..];
    } else {
      assert ws[i := w][1..] == ws[1..][i - 1 := w];
      EffortsUpdate(ws[1..], i - 1, w);
    }
  }

  lemma StepAfterCloseShrinks(q: Queue, a: Action)
    requires Accounted(q) && q.closed && Enabled(q, a)
    ensures Apply(q, a).closed && Remaining(Apply(q, a)) < Remaining(q)
  {
    match a {
      case Take(w) => EffortsUpdate(q.workers, w, Holding(q.channel[0]));
      case Hand(w) => EffortsUpdate(q.workers, w, Waiting);
      case StopCancelled(w) => EffortsUpdate(q.workers, w, Stopped);
      case StopClosed(w) => EffortsUpdate(q.workers, w, Stopped);
      case _ =>
    }
  }

  predicate AllStopped(q: Queue) {
    forall w :: 0 <= w < |q.workers| ==> q.workers[w].Stopped?
  }

  /** After Close no schedule can go on for more than `Remaining` steps, and one that cannot
      go on has stopped every worker: Wait returns. What was accepted was then handed over, or
      is still in the channel and lost. */
  lemma {:induction false} CloseTerminates(q: Queue, actions: seq<Action>)
    requires Accounted(q) && q.closed && EnabledRun(q, actions)
    ensures |actions| <= Remaining(q)
    ensures var r := Run(q, actions);
            && ((forall a :: !Enabled(r, a)) <==> AllStopped(r))
            && (AllStopped(r) ==> forall e: Event :: Count(r.accepted, e) == Count(r.handed, e) + Count(r.channel, e))
    decreases |actions|
  {
    if actions == [] {
      if forall a :: !Enabled(q, a) {
        forall w | 0 <= w < |q.workers| ensures q.workers[w].Stopped? {
          assert !Enabled(q, Hand(w)) && !Enabled(q, StopCancelled(w));
        }
      }
      if AllStopped(q) {
        NothingHeldAtTheEnd(q);
      }
    } else {
      StepKeepsAccount(q, actions[0]);
      StepAfterCloseShrinks(q, actions[0]);
      CloseTerminates(Apply(q, actions[0]), actions[1..]);
    }
  }

  lemma NothingHeldAtTheEnd(q: Queue)
    requires Accounted(q) && AllStopped(q)
    ensures forall e: Event :: Count(q.accepted, e) == Count(q.handed, e) + Count(q.channel, e)
  {
    StoppedHoldNothing(q.workers);
    CountConcat(q.received, q.channel);
    forall e: Event ensures Count(q.accepted, e) == Count(q.handed, e) + Count(q.channel, e) {
      assert ReceivedOf(q, e);
    }
  }

  lemma {:induction false} StoppedHoldNothing(ws: seq<Worker>)
    requires forall w :: 0 <= w < |ws| ==> ws[w].Stopped?
    ensures InHands(ws) == multiset{}
  {
    if ws != [] { StoppedHoldNothing(ws[1..]); }
  }

  // ----- what Close can lose -------------------------------------------------------------------

  lemma {:induction false} EmptyStaysEmpty(q: Queue, actions: seq<Action>)
    requires EnabledRun(q, actions) && q.closed && q.channel == []
    ensures Run(q, actions).channel == []
    decreases |actions|
  {
    if actions != [] {
      EmptyStaysEmpty(Apply(q, actions[0]), actions[1..]);
    }
  }

  /** Once cancelled, every worker may leave without looking at the channel again. */
  lemma {:induction false} AllMayLeave(q: Queue) returns (actions: seq<Action>)
    requires q.cancelled
    ensures EnabledRun(q, actions) && AllStopped(Run(q, actions)) && Run(q, actions).channel == q.channel
    decreases Efforts(q.workers)
  {
    if w :| 0 <= w < |q.workers| && !q.workers[w].Stopped? {
      var step := if q.workers[w].Holding? then Hand(w) else StopCancelled(w);
      EffortsUpdate(q.workers, w, Apply(q, step).workers[w]);
      var rest := AllMayLeave(Apply(q, step));
      RunLonger(q, step, rest);
      actions := [step] + rest;
    } else {
      actions := [];
    }
  }

  /** After Close some schedule ends with accepted events unrecorded exactly when the channel
      was not empty at that moment. */
  lemma CloseLosesEventsExactly(q: Queue)
    requires Accounted(q) && q.closed
    ensures q.channel != [] <==> exists actions :: EnabledRun(q, actions) && AllStopped(Run(q, actions)) && Run(q, actions).channel != []
  {
    if q.channel != [] {
      var actions := AllMayLeave(q);
      assert Run(q, actions).channel != [];
    } else {
      forall actions | EnabledRun(q, actions) ensures Run(q, actions).channel == [] {
        EmptyStaysEmpty(q, actions);
      }
    }
  }

  /** Such a moment is reached with any number of workers and any room. */
  lemma CloseMayLoseEvents(capacity: nat, n: nat, e: Event)
    requires capacity >= 1
    ensures var actions := [SendNow(e), Cancel, CloseChannel];
            EnabledRun(Start(capacity, n), actions)
            && var q := Run(Start(capacity, n), actions); q.closed && Accounted(q) && q.channel == [e]
  {
    var s1 := Apply(Start(capacity, n), SendNow(e));
    var s2 := Apply(s1, Cancel);
    RunLonger(s2, CloseChannel, []);
    RunLonger(s1, Cancel, [CloseChannel]);
    RunLonger(Start(capacity, n), SendNow(e), [Cancel, CloseChannel]);
    NobodyHoldsAtStart(n);
    EveryRunKeepsAccount(Start(capacity, n), [SendNow(e), Cancel, CloseChannel]);
  }
}
