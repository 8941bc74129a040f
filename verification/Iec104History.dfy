/** The 104 client's behaviour told from the events of a run: when it runs, what it knows, and
    exactly what each event makes it send. */
module Iec104History {
  import opened Wrappers
  import opened Iec104Client

  // ----- single steps -----

  lemma AfterNext(s: Client, events: seq<Event>, k: nat)
    requires k < |events|
    ensures After(s, events[..k + 1]) == Step(After(s, events[..k]), events[k])
  {
    assert events[..k + 1][..k] == events[..k];
  }

  lemma StepKnows(s: Client, e: Event)
    requires !Step(s, e).terminated
    ensures !s.terminated
    ensures Step(s, e).lastEvent == if e.Callback? then Some(e.event) else s.lastEvent
    ensures Step(s, e).startDtSent == if e.SetStartDtSent? then e.value else s.startDtSent
  {
  }

  ghost predicate ReactsToLoss(s: Client, e: Event)
  {
    e.WorkerAct? && s.worker == Entered && (s.lastEvent == Some(Closed) || s.lastEvent == Some(Failed))
  }

  lemma StepRuns(s: Client, e: Event)
    requires !Step(s, e).terminated
    ensures Step(s, e).running <==> e == Start || (s.running && e != StopBegin && !ReactsToLoss(s, e))
  {
  }

  /** What the event makes a running client send in this state. */
  ghost predicate Sends(s: Client, e: Event, what: Send)
  {
    s.running
    && match e
       case WorkerAct(now) =>
         && s.worker == Entered
         && (what == StartDT ==> s.lastEvent == Some(Opened))
         && (what == Interrogation ==>
               && s.startDtSent && s.lastEvent !in {Some(Opened), Some(Closed), Some(Failed)}
               && now > ((if now < s.lastGi then now else s.lastGi) + s.giInterval) % UINT64_SPAN)
         && what != StopDT
       case UserSend(asked) => what == asked && (what == Interrogation ==> s.startDtSent)
       case _ => false
  }

  lemma StepSends(s: Client, e: Event)
    requires !Step(s, e).terminated && (s.stopping ==> !s.running)
    ensures Step(s, e).sends == s.sends ==> forall what :: !Sends(s, e, what)
    ensures Step(s, e).sends != s.sends ==>
      exists sent :: Step(s, e).sends == s.sends + [sent] && forall what :: Sends(s, e, what) <==> what == sent
  {
    match e
    case WorkerAct(now) =>
      if s.worker == Entered {
        ActSends(s, now);
      }
    case _ =>
  }

  lemma ActSends(s: Client, now: UInt64)
    requires !s.terminated && s.worker == Entered
    ensures var t := Act(s, now);
      && (t.sends == s.sends ==> forall what :: !Sends(s, WorkerAct(now), what))
      && (t.sends != s.sends ==>
            exists sent :: t.sends == s.sends + [sent]
                           && forall what :: Sends(s, WorkerAct(now), what) <==> what == sent)
  {
  }

  lemma StepLastGi(s: Client, e: Event)
    requires !Step(s, e).terminated
    ensures var t := Step(s, e);
      && t.giInterval == s.giInterval
      && (t.giTimes != s.giTimes ==> e.WorkerAct? && t.giTimes == s.giTimes + [e.now] && t.lastGi == e.now)
      && (t.giTimes == s.giTimes ==> t.lastGi == s.lastGi || (e.WorkerAct? && t.lastGi == e.now < s.lastGi))
  {
    if e.WorkerAct? && s.worker == Entered {
      PaceLastGi(s, e.now);
    }
  }

  lemma PaceLastGi(s: Client, now: UInt64)
    ensures var t := Pace(s, now);
      && t.giInterval == s.giInterval
      && (t.giTimes != s.giTimes ==> t.giTimes == s.giTimes + [now] && t.lastGi == now)
      && (t.giTimes == s.giTimes ==> t.lastGi == s.lastGi || t.lastGi == now < s.lastGi)
  {
  }

  // ----- what the client knows -----

  /** The last connection event that a callback delivered, if any. */
  ghost predicate LastDelivered(events: seq<Event>, event: Option<ConnectionEvent>)
  {
    match event
    case None => forall k :: 0 <= k < |events| ==> !events[k].Callback?
    case Some(e) =>
      exists k :: 0 <= k < |events| && events[k] == Callback(e)
                  && forall j :: k < j < |events| ==> !events[j].Callback?
  }

  /** The value the STARTDT flag was last set to; unset at first. */
  ghost predicate LastFlag(events: seq<Event>, flag: bool)
  {
    || (!flag && forall k :: 0 <= k < |events| ==> !events[k].SetStartDtSent?)
    || exists k :: 0 <= k < |events| && events[k] == SetStartDtSent(flag)
                   && forall j :: k < j < |events| ==> !events[j].SetStartDtSent?
  }

  lemma {:induction false} KnowledgeIsHistory(giInterval: Int32, events: seq<Event>)
    requires !After(Initial(giInterval), events).terminated
    ensures LastDelivered(events, After(Initial(giInterval), events).lastEvent)
    ensures LastFlag(events, After(Initial(giInterval), events).startDtSent)
  {
    if events != [] {
      var front, e := events[..|events| - 1], events[|events| - 1];
      KnowledgeIsHistory(giInterval, front);
      var s := After(Initial(giInterval), front);
      StepKnows(s, e);
      DeliveredNext(front, e, s.lastEvent);
      FlagNext(front, e, s.startDtSent);
      assert front + [e] == events;
    }
  }

  lemma DeliveredNext(front: seq<Event>, e: Event, event: Option<ConnectionEvent>)
    requires LastDelivered(front, event)
    ensures LastDelivered(front + [e], if e.Callback? then Some(e.event) else event)
  {
    var all := front + [e];
    if e.Callback? {
      assert all[|front|] == Callback(e.event);
    } else if event.Some? {
      var k :| 0 <= k < |front| && front[k] == Callback(event.value)
               && forall j :: k < j < |front| ==> !front[j].Callback?;
      assert all[k] == Callback(event.value);
    }
  }

  lemma FlagNext(front: seq<Event>, e: Event, flag: bool)
    requires LastFlag(front, flag)
    ensures LastFlag(front + [e], if e.SetStartDtSent? then e.value else flag)
  {
    var all := front + [e];
    if e.SetStartDtSent? {
      assert all[|front|] == SetStartDtSent(e.value);
    } else if k :| 0 <= k < |front| && front[k] == SetStartDtSent(flag)
                   && forall j :: k < j < |front| ==> !front[j].SetStartDtSent? {
      assert all[k] == SetStartDtSent(flag);
    }
  }

  // ----- when it runs -----

  /** At the k-th event the worker, inside its section, reacts to a lost connection. */
  ghost predicate LosesAt(giInterval: Int32, events: seq<Event>, k: nat)
  {
    && k < |events| && events[k].WorkerAct? && After(Initial(giInterval), events[..k]).worker == Entered
    && (LastDelivered(events[..k], Some(Closed)) || LastDelivered(events[..k], Some(Failed)))
  }

  /** Started by the k-th event, with neither a `stop` nor a reaction to a loss up to the n-th. */
  ghost predicate RunsSince(giInterval: Int32, events: seq<Event>, k: nat, n: nat)
  {
    && k < n <= |events| && events[k] == Start
    && forall j :: k < j < n ==> events[j] != StopBegin && !LosesAt(giInterval, events, j)
  }

  ghost predicate Runs(giInterval: Int32, events: seq<Event>, n: nat)
  {
    exists k: nat :: RunsSince(giInterval, events, k, n)
  }

  /** The client counts as running exactly between a `start` and the next `stop` or reaction to
      a lost connection. */
  lemma {:induction false} RunningIff(giInterval: Int32, events: seq<Event>, n: nat)
    requires n <= |events| && !After(Initial(giInterval), events[..n]).terminated
    ensures After(Initial(giInterval), events[..n]).running <==> Runs(giInterval, events, n)
  {
    if n > 0 {
      AfterNext(Initial(giInterval), events, n - 1);
      StepKnows(After(Initial(giInterval), events[..n - 1]), events[n - 1]);
      RunningIff(giInterval, events, n - 1);
      RunningNext(giInterval, events, n);
      RunsNext(giInterval, events, n);
    }
  }

  lemma RunningNext(giInterval: Int32, events: seq<Event>, n: nat)
    requires 0 < n <= |events| && !After(Initial(giInterval), events[..n]).terminated
    ensures After(Initial(giInterval), events[..n]).running
            <==> events[n - 1] == Start
                 || (After(Initial(giInterval), events[..n - 1]).running
                     && events[n - 1] != StopBegin && !LosesAt(giInterval, events, n - 1))
  {
    AfterNext(Initial(giInterval), events, n - 1);
    var s := After(Initial(giInterval), events[..n - 1]);
    StepRuns(s, events[n - 1]);
    StepKnows(s, events[n - 1]);
    KnowledgeIsHistory(giInterval, events[..n - 1]);
    OneLastDelivered(events[..n - 1], s.lastEvent, Some(Closed));
    OneLastDelivered(events[..n - 1], s.lastEvent, Some(Failed));
  }

  lemma OneLastDelivered(events: seq<Event>, a: Option<ConnectionEvent>, b: Option<ConnectionEvent>)
    requires LastDelivered(events, a)
    ensures LastDelivered(events, b) <==> a == b
  {
  }

  lemma RunsNext(giInterval: Int32, events: seq<Event>, n: nat)
    requires 0 < n <= |events|
    ensures Runs(giInterval, events, n)
            <==> events[n - 1] == Start
                 || (Runs(giInterval, events, n - 1)
                     && events[n - 1] != StopBegin && !LosesAt(giInterval, events, n - 1))
  {
    var before := n - 1;
    if events[before] == Start {
      assert RunsSince(giInterval, events, before, n);
    }
    if k: nat :| RunsSince(giInterval, events, k, before) {
      if events[before] != StopBegin && !LosesAt(giInterval, events, before) {
        assert RunsSince(giInterval, events, k, n);
      }
    }
    if k: nat :| RunsSince(giInterval, events, k, n) {
      assert k < before ==> RunsSince(giInterval, events, k, before);
    }
  }

  // ----- what it sends -----

  /** What the k-th event of a run must make the client send. A worker in its section answers
      an opened connection with STARTDT; with the flag set and no loss to react to, it
      interrogates when more than the interval has passed since the last time, a time later
      than now counting as now. A direct call sends what it says, an interrogation only with
      the flag set. Nothing is sent while the client does not run, or by anything else. */
  ghost predicate MustSend(giInterval: Int32, events: seq<Event>, k: nat, what: Send)
    requires k < |events|
  {
    var s, known := After(Initial(giInterval), events[..k]), events[..k];
    && Runs(giInterval, events, k)
    && match events[k]
       case WorkerAct(now) =>
         && s.worker == Entered
         && (what == StartDT ==> LastDelivered(known, Some(Opened)))
         && (what == Interrogation ==>
               && LastFlag(known, true)
               && !LastDelivered(known, Some(Opened)) && !LastDelivered(known, Some(Closed))
               && !LastDelivered(known, Some(Failed))
               && now > ((if now < s.lastGi then now else s.lastGi) + giInterval) % UINT64_SPAN)
         && what != StopDT
       case UserSend(asked) => what == asked && (what == Interrogation ==> LastFlag(known, true))
       case _ => false
  }

  lemma OneLastFlag(events: seq<Event>, a: bool, b: bool)
    requires LastFlag(events, a)
    ensures LastFlag(events, b) <==> a == b
  {
  }

  /** What must be sent, told from the state, is what must be sent, told from the run. */
  lemma MustSendIff(giInterval: Int32, events: seq<Event>, k: nat, what: Send)
    requires k < |events| && !After(Initial(giInterval), events[..k]).terminated
    ensures MustSend(giInterval, events, k, what) <==> Sends(After(Initial(giInterval), events[..k]), events[k], what)
  {
    var s, known := After(Initial(giInterval), events[..k]), events[..k];
    RunningIff(giInterval, events, k);
    KnowledgeIsHistory(giInterval, known);
    OneLastFlag(known, s.startDtSent, true);
    OneLastDelivered(known, s.lastEvent, Some(Opened));
    OneLastDelivered(known, s.lastEvent, Some(Closed));
    OneLastDelivered(known, s.lastEvent, Some(Failed));
    IntervalStays(giInterval, known);
  }

  /** In every run each event sends exactly what it must, at most one thing. */
  lemma SendsExactly(giInterval: Int32, events: seq<Event>, k: nat)
    requires k < |events| && !After(Initial(giInterval), events[..k + 1]).terminated
    ensures var s, t := After(Initial(giInterval), events[..k]), After(Initial(giInterval), events[..k + 1]);
      if t.sends == s.sends then forall what :: !MustSend(giInterval, events, k, what)
      else exists sent :: t.sends == s.sends + [sent]
                          && forall what :: MustSend(giInterval, events, k, what) <==> what == sent
  {
    var s := After(Initial(giInterval), events[..k]);
    AfterNext(Initial(giInterval), events, k);
    StepKnows(s, events[k]);
    StoppingIsStill(giInterval, events[..k]);
    StepSends(s, events[k]);
    forall what ensures MustSend(giInterval, events, k, what) <==> Sends(s, events[k], what) {
      MustSendIff(giInterval, events, k, what);
    }
  }

  lemma {:induction false} StoppingIsStill(giInterval: Int32, events: seq<Event>)
    requires !After(Initial(giInterval), events).terminated
    ensures var s := After(Initial(giInterval), events);
      (s.running ==> s.joinable) && (s.stopping ==> s.joinable && !s.running)
  {
    if events != [] {
      var s, e := After(Initial(giInterval), events[..|events| - 1]), events[|events| - 1];
      StepKnows(s, e);
      StoppingIsStill(giInterval, events[..|events| - 1]);
      StepStops(s, e);
    }
  }

  lemma StepStops(s: Client, e: Event)
    requires !Step(s, e).terminated
    requires (s.running ==> s.joinable) && (s.stopping ==> s.joinable && !s.running)
    ensures var t := Step(s, e); (t.running ==> t.joinable) && (t.stopping ==> t.joinable && !t.running)
  {
  }

  lemma {:induction false} IntervalStays(giInterval: Int32, events: seq<Event>)
    ensures After(Initial(giInterval), events).giInterval == giInterval
  {
    if events != [] {
      IntervalStays(giInterval, events[..|events| - 1]);
      StepInterval(After(Initial(giInterval), events[..|events| - 1]), events[|events| - 1]);
    }
  }

  lemma StepInterval(s: Client, e: Event)
    ensures Step(s, e).giInterval == s.giInterval
  {
  }

  /** A running client answers an opened connection: wherever a run has brought the worker to
      test its loop, its next three steps send STARTDT. */
  lemma OpenedIsAnswered(giInterval: Int32, events: seq<Event>, now: UInt64)
    requires var s := After(Initial(giInterval), events);
      !s.terminated && s.worker == Testing && s.running
    requires LastDelivered(events, Some(Opened))
    ensures var s := After(Initial(giInterval), events);
      var t := Step(Step(Step(s, WorkerTest), WorkerWait), WorkerAct(now));
      t.sends == s.sends + [StartDT] && t.worker == Acted && t.running
  {
    SemaphoreNeverBlocks(giInterval, events);
    KnowledgeIsHistory(giInterval, events);
    OneLastDelivered(events, After(Initial(giInterval), events).lastEvent, Some(Opened));
  }

  /** The time of the last interrogation is the time of the action that sent or tried it, and is
      otherwise only ever pulled back to a clock reading that lies before it. */
  lemma LastGiMoves(giInterval: Int32, events: seq<Event>, k: nat)
    requires k < |events| && !After(Initial(giInterval), events[..k + 1]).terminated
    ensures var s, t := After(Initial(giInterval), events[..k]), After(Initial(giInterval), events[..k + 1]);
      && (t.giTimes != s.giTimes ==>
            events[k].WorkerAct? && t.giTimes == s.giTimes + [events[k].now] && t.lastGi == events[k].now)
      && (t.giTimes == s.giTimes ==>
            t.lastGi == s.lastGi || (events[k].WorkerAct? && t.lastGi == events[k].now < s.lastGi))
  {
    AfterNext(Initial(giInterval), events, k);
    StepLastGi(After(Initial(giInterval), events[..k]), events[k]);
  }
}
