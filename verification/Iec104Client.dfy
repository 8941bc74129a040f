/** The IEC 60870-5-104 client: a worker loop that reacts to the last connection event, fed by
    callbacks through a semaphore, and public calls beside it. */
module Iec104Client {
  import opened Wrappers
  import opened Spacing

  const UINT64_SPAN: int := 0x1_0000_0000_0000_0000

  type UInt64 = x: int | 0 <= x < UINT64_SPAN

  type Int32 = x: int | -0x8000_0000 <= x < 0x8000_0000

  /** Far enough from the end of the 64-bit clock for no interval to run over it. */
  const CLOCK_LIMIT: int := UINT64_SPAN - 0x8000_0000

  datatype ConnectionEvent = Opened | Closed | Failed | StartDtConReceived | StopDtConReceived

  datatype Send = StartDT | StopDT | Interrogation

  /** Where the worker thread is: testing its loop condition, waiting for the semaphore, in the
      section before or after its action, gone, or never created. */
  datatype Worker = NoThread | Testing | Waiting | Entered | Acted | Ended

  datatype Event =
    | Start
    | StopBegin
    | StopJoin
    | Callback(event: ConnectionEvent)
    | WorkerTest
    | WorkerWait
    | WorkerAct(now: UInt64)
    | WorkerPost
    | UserSend(what: Send)
    | SetStartDtSent(value: bool)

  datatype Client = Client(giInterval: Int32, running: bool, startDtSent: bool, lastEvent: Option<ConnectionEvent>,
                           lastGi: UInt64, semaphore: int, worker: Worker, joinable: bool, stopping: bool,
                           terminated: bool, delivered: nat, sends: seq<Send>, giTimes: seq<int>)

  function Initial(giInterval: Int32): Client
  {
    Client(giInterval, false, false, None, 0, 1, NoThread, false, false, false, 0, [], [])
  }

  /** The public send calls: silent unless running, an interrogation also without STARTDT. */
  function Sent(s: Client, what: Send): Client
  {
    if s.running && (what == Interrogation ==> s.startDtSent) then s.(sends := s.sends + [what]) else s
  }

  /** The last interrogation time the worker goes by: pulled back if the clock jumped back. */
  function Clamped(s: Client, now: UInt64): UInt64
  {
    if now < s.lastGi then now else s.lastGi
  }

  function IsDue(s: Client, now: UInt64): bool
  {
    now > (Clamped(s, now) + s.giInterval) % UINT64_SPAN
  }

  /** What the worker does inside its section. */
  function Act(s: Client, now: UInt64): Client
  {
    if s.lastEvent == Some(Opened) then Sent(s, StartDT)
    else if s.lastEvent == Some(Closed) || s.lastEvent == Some(Failed) then s.(running := false)
    else if s.startDtSent then Pace(s, now)
    else s
  }

  /** The timing branch. */
  function Pace(s: Client, now: UInt64): Client
  {
    if IsDue(s, now) then Sent(s.(lastGi := now, giTimes := s.giTimes + [now]), Interrogation)
    else s.(lastGi := Clamped(s, now))
  }

  function Step(s: Client, e: Event): Client
  {
    if s.terminated then s
    else
      match e
      case Start =>
        if s.running then s
        else if s.joinable then s.(running := true, terminated := true)
        else s.(running := true, joinable := true, worker := Testing)
      case StopBegin => if s.running then s.(running := false, stopping := true) else s
      case StopJoin =>
        if s.stopping && s.worker == Ended then
          var joined := s.(joinable := false, stopping := false);
          if s.startDtSent then Sent(joined, StopDT) else joined
        else s
      case Callback(event) =>
        s.(lastEvent := Some(event), semaphore := s.semaphore + 1, delivered := s.delivered + 1)
      case WorkerTest =>
        if s.worker == Testing then s.(worker := if s.running then Waiting else Ended) else s
      case WorkerWait =>
        if s.worker == Waiting && s.semaphore > 0 then s.(worker := Entered, semaphore := s.semaphore - 1) else s
      case WorkerAct(now) =>
        if s.worker == Entered then Act(s, now).(worker := Acted) else s
      case WorkerPost =>
        if s.worker == Acted then s.(worker := Testing, semaphore := s.semaphore + 1) else s
      case UserSend(what) => Sent(s, what)
      case SetStartDtSent(value) => s.(startDtSent := value)
  }

  function After(s: Client, events: seq<Event>): Client
  {
    if events == [] then s else Step(After(s, events[..|events| - 1]), events[|events| - 1])
  }

  // ----- the semaphore -----

  function InSection(s: Client): int
  {
    if s.worker == Entered || s.worker == Acted then 1 else 0
  }

  ghost predicate SemaphoreCounts(s: Client)
  {
    s.semaphore == 1 + s.delivered - InSection(s) && (s.worker == NoThread || s.worker == Ended || s.joinable)
  }

  /** In every run the semaphore stands at one, plus the events delivered, minus one while the
      worker is inside its section -- so a waiting worker always gets in. */
  lemma {:induction false} SemaphoreNeverBlocks(giInterval: Int32, events: seq<Event>)
    ensures SemaphoreCounts(After(Initial(giInterval), events))
    ensures After(Initial(giInterval), events).worker == Waiting ==> After(Initial(giInterval), events).semaphore >= 1
  {
    if events != [] {
      var n := |events| - 1;
      SemaphoreNeverBlocks(giInterval, events[..n]);
      StepKeepsCount(After(Initial(giInterval), events[..n]), events[n]);
    }
  }

  lemma StepKeepsCount(s: Client, e: Event)
    requires SemaphoreCounts(s)
    ensures SemaphoreCounts(Step(s, e))
  {
  }

  // ----- silence after a lost connection -----

  /** The worker is about to act on a lost connection. */
  ghost predicate SeesLoss(s: Client)
  {
    !s.terminated && s.worker == Entered && (s.lastEvent == Some(Closed) || s.lastEvent == Some(Failed))
  }

  /** The state after the worker has acted on a lost connection, or `stop` has begun. */
  lemma {:induction false} SilentUntilStart(s: Client, events: seq<Event>)
    requires !s.running
    requires forall k :: 0 <= k < |events| ==> events[k] != Start
    ensures var t := After(s, events); !t.running && t.sends == s.sends
  {
    if events != [] {
      var n := |events| - 1;
      SilentUntilStart(s, events[..n]);
      StepIsSilent(After(s, events[..n]), events[n]);
    }
  }

  lemma StepIsSilent(s: Client, e: Event)
    requires !s.running && e != Start
    ensures !Step(s, e).running && Step(s, e).sends == s.sends
    ensures s.joinable && !s.stopping ==> Step(s, e).joinable && !Step(s, e).stopping
    ensures Step(s, e).terminated == s.terminated
  {
  }

  /** Once the worker has seen CLOSED or FAILED, nothing is sent -- by it or by any public call --
      until `start` is called again. */
  lemma LostConnectionIsSilent(s: Client, now: UInt64, events: seq<Event>)
    requires SeesLoss(s)
    requires forall k :: 0 <= k < |events| ==> events[k] != Start
    ensures After(Step(s, WorkerAct(now)), events).sends == s.sends
    ensures !After(Step(s, WorkerAct(now)), events).running
  {
    SilentUntilStart(Step(s, WorkerAct(now)), events);
  }

  // ----- starting again after a lost connection -----

  ghost predicate Started(events: seq<Event>)
  {
    exists k :: 0 <= k < |events| && events[k] == Start
  }

  /** The events of `pattern` occur in `events`, in this order and possibly far apart. */
  ghost predicate Subsequence(pattern: seq<Event>, events: seq<Event>)
  {
    pattern == []
    || (events != []
        && var m, n := |pattern| - 1, |events| - 1;
           Subsequence(pattern, events[..n]) || (pattern[m] == events[n] && Subsequence(pattern[..m], events[..n])))
  }

  const EndsLoop: seq<Event> := [WorkerPost, WorkerTest]

  const EndsStop: seq<Event> := [WorkerPost, WorkerTest, StopJoin]

  /** Until the next `start`, a worker that saw the loss leaves its section and its loop, and a
      `stop` that has begun joins it once it has ended. */
  lemma {:induction false} LostWorkerEnds(s: Client, events: seq<Event>)
    requires !s.terminated && !s.running && s.worker == Acted && s.joinable
    requires !Started(events)
    ensures var t := After(s, events);
      && !t.terminated && !t.running
      && t.worker == (if Subsequence(EndsLoop, events) then Ended
                      else if Subsequence([WorkerPost], events) then Testing else Acted)
      && t.stopping == (s.stopping && !Subsequence(EndsStop, events))
      && t.joinable == !(s.stopping && Subsequence(EndsStop, events))
    ensures Subsequence(EndsStop, events) ==> Subsequence(EndsLoop, events)
    ensures Subsequence(EndsLoop, events) ==> Subsequence([WorkerPost], events)
  {
    if events != [] {
      var n := |events| - 1;
      StartedSnoc(events);
      LostWorkerEnds(s, events[..n]);
      PatternsSnoc(events);
      StepWithoutStart(After(s, events[..n]), events[n]);
    }
  }

  lemma PatternsSnoc(events: seq<Event>)
    requires events != []
    ensures var front, e := events[..|events| - 1], events[|events| - 1];
      && (Subsequence([WorkerPost], events) <==> Subsequence([WorkerPost], front) || e == WorkerPost)
      && (Subsequence(EndsLoop, events)
          <==> Subsequence(EndsLoop, front) || (e == WorkerTest && Subsequence([WorkerPost], front)))
      && (Subsequence(EndsStop, events)
          <==> Subsequence(EndsStop, front) || (e == StopJoin && Subsequence(EndsLoop, front)))
  {
    assert [WorkerPost][..0] == [] && EndsLoop[..1] == [WorkerPost] && EndsStop[..2] == EndsLoop;
  }

  lemma StepWithoutStart(s: Client, e: Event)
    requires !s.terminated && !s.running && e != Start && s.worker in {Acted, Testing, Ended}
    ensures var t := Step(s, e);
      && !t.terminated && !t.running
      && t.worker == (if s.worker == Acted && e == WorkerPost then Testing
                      else if s.worker == Testing && e == WorkerTest then Ended else s.worker)
      && var joins := s.stopping && s.worker == Ended && e == StopJoin;
         t.stopping == (s.stopping && !joins) && t.joinable == (s.joinable && !joins)
  {
  }

  /** In every run: once the worker has acted on a lost connection, the next `start` is fatal
      unless `stop` had begun before and has since joined the ended worker. In that case, and
      only then, it starts a new worker. */
  lemma RestartFailsIff(giInterval: Int32, events: seq<Event>, now: UInt64, later: seq<Event>)
    requires SeesLoss(After(Initial(giInterval), events)) && !Started(later)
    ensures var s := After(Initial(giInterval), events);
      var restarted := Step(After(Step(s, WorkerAct(now)), later), Start);
      && (restarted.terminated <==> !(s.stopping && Subsequence(EndsStop, later)))
      && (!restarted.terminated ==> restarted.running && restarted.worker == Testing)
  {
    SemaphoreNeverBlocks(giInterval, events);
    LostWorkerEnds(Step(After(Initial(giInterval), events), WorkerAct(now)), later);
  }

  /** That case does occur. */
  lemma RestartCanSucceed() returns (events: seq<Event>, later: seq<Event>)
    ensures SeesLoss(After(Initial(0), events)) && !Started(later)
    ensures After(Initial(0), events).stopping && Subsequence(EndsStop, later)
  {
    var s := Initial(0);
    events, later := [], EndsStop;
    AfterSnoc(s, events, Start);
    events := events + [Start];
    AfterSnoc(s, events, WorkerTest);
    events := events + [WorkerTest];
    AfterSnoc(s, events, WorkerWait);
    events := events + [WorkerWait];
    AfterSnoc(s, events, Callback(Closed));
    events := events + [Callback(Closed)];
    AfterSnoc(s, events, StopBegin);
    events := events + [StopBegin];
    WholePattern();
  }

  lemma WholePattern()
    ensures Subsequence(EndsStop, EndsStop)
  {
    assert EndsStop[..2] == EndsLoop && EndsLoop[..1] == [WorkerPost];
    PatternsSnoc([WorkerPost]);
    PatternsSnoc(EndsLoop);
    PatternsSnoc(EndsStop);
  }

  lemma AfterSnoc(s: Client, events: seq<Event>, e: Event)
    ensures After(s, events + [e]) == Step(After(s, events), e)
  {
    assert (events + [e])[..|events|] == events;
  }

  /** In particular, when no `stop` had begun, nothing rescues a later `start`: the public
      `stop` does nothing while the client is not running, so the worker is never joined. And
      nothing is sent any more. */
  lemma LossWithoutStopIsFinal(giInterval: Int32, events: seq<Event>, now: UInt64, later: seq<Event>)
    requires SeesLoss(After(Initial(giInterval), events)) && !After(Initial(giInterval), events).stopping
    ensures var s := After(Initial(giInterval), events);
      var t := After(Step(s, WorkerAct(now)), later);
      (t.terminated <==> Started(later)) && t.sends == s.sends
  {
    SemaphoreNeverBlocks(giInterval, events);
    RestartTerminates(Step(After(Initial(giInterval), events), WorkerAct(now)), later);
  }

  lemma {:induction false} RestartTerminates(s: Client, events: seq<Event>)
    requires !s.terminated && !s.running && s.joinable && !s.stopping
    ensures After(s, events).terminated <==> Started(events)
    ensures After(s, events).sends == s.sends && After(s, events).joinable && !After(s, events).stopping
    ensures !Started(events) ==> !After(s, events).running
  {
    if events != [] {
      var n := |events| - 1;
      RestartTerminates(s, events[..n]);
      StartedSnoc(events);
      if !Started(events[..n]) && events[n] != Start {
        StepIsSilent(After(s, events[..n]), events[n]);
      }
    }
  }

  lemma StartedSnoc(events: seq<Event>)
    requires events != []
    ensures Started(events) <==> Started(events[..|events| - 1]) || events[|events| - 1] == Start
  {
    var n := |events| - 1;
    assert forall k :: 0 <= k < n ==> events[..n][k] == events[k];
    if Started(events[..n]) {
      var k :| 0 <= k < n && events[..n][k] == Start;
      assert events[k] == Start;
    }
  }

  // ----- what is never sent -----

  ghost predicate NoStopDt(s: Client)
  {
    && StopDT !in s.sends
    && (s.running ==> s.joinable) && (s.stopping ==> s.joinable && (s.running ==> s.terminated))
  }

  lemma StepSendsNoStopDt(s: Client, e: Event)
    requires NoStopDt(s) && e != UserSend(StopDT)
    ensures NoStopDt(Step(s, e))
  {
  }

  /** `stop` clears the running flag before it tries to send STOPDT: in every run without a
      direct call of the public method no STOPDT is sent. */
  lemma {:induction false} StopNeverSendsStopDt(giInterval: Int32, events: seq<Event>)
    requires forall k :: 0 <= k < |events| ==> events[k] != UserSend(StopDT)
    ensures NoStopDt(After(Initial(giInterval), events))
  {
    if events != [] {
      var n := |events| - 1;
      StopNeverSendsStopDt(giInterval, events[..n]);
      StepSendsNoStopDt(After(Initial(giInterval), events[..n]), events[n]);
    }
  }

  ghost predicate NoInterrogation(s: Client)
  {
    !s.startDtSent && Interrogation !in s.sends && s.giTimes == []
  }

  lemma StepSendsNoInterrogation(s: Client, e: Event)
    requires NoInterrogation(s) && e != SetStartDtSent(true)
    ensures NoInterrogation(Step(s, e))
  {
  }

  /** Nothing in the client sets the STARTDT flag; and unless something else does, no
      interrogation is ever sent, not even by a direct call. */
  lemma {:induction false} NoFlagNoInterrogation(giInterval: Int32, events: seq<Event>)
    requires forall k :: 0 <= k < |events| ==> events[k] != SetStartDtSent(true)
    ensures NoInterrogation(After(Initial(giInterval), events))
  {
    if events != [] {
      var n := |events| - 1;
      NoFlagNoInterrogation(giInterval, events[..n]);
      StepSendsNoInterrogation(After(Initial(giInterval), events[..n]), events[n]);
    }
  }

  // ----- interrogation pacing -----

  /** In a stretch of a run the worker's clock readings lie in a window and do not fall back. */
  ghost predicate SteadyClock(events: seq<Event>, lo: int, hi: int)
  {
    && (forall k :: 0 <= k < |events| && events[k].WorkerAct? ==> lo <= events[k].now <= hi)
    && forall j, k :: 0 <= j < k < |events| && events[j].WorkerAct? && events[k].WorkerAct? ==>
         events[j].now <= events[k].now
  }

  lemma ActPaces(s: Client, now: UInt64)
    requires 0 <= s.giInterval && s.lastGi <= now < CLOCK_LIMIT
    ensures if Act(s, now).giTimes == s.giTimes then Act(s, now).lastGi == s.lastGi
            else Act(s, now).giTimes == s.giTimes + [now] && Act(s, now).lastGi == now && now > s.lastGi + s.giInterval
  {
    NoOverrun(s.lastGi + s.giInterval);
    assert IsDue(s, now) <==> now > s.lastGi + s.giInterval;
  }

  lemma NoOverrun(time: int)
    requires 0 <= time < UINT64_SPAN
    ensures time % UINT64_SPAN == time
  {
  }

  /** The interrogation times of a stretch: those recorded after the ones before it. */
  ghost function NewTimes(s: Client, t: Client): seq<int>
    requires |s.giTimes| <= |t.giTimes|
  {
    t.giTimes[|s.giTimes|..]
  }

  /** `t`, reached from `s`, has issued its new interrogations spaced and within the window,
      the last of them at an action of the stretch. */
  ghost predicate Paced(s: Client, t: Client, events: seq<Event>, lo: int, hi: int)
  {
    && s.giTimes <= t.giTimes && t.giInterval == s.giInterval
    && var times := NewTimes(s, t);
       && Spaced(times, s.giInterval + 1)
       && (forall i :: 0 <= i < |times| ==> lo <= times[i] <= hi)
       && (times != [] ==> t.lastGi == times[|times| - 1] && ActedAt(events, t.lastGi))
  }

  ghost predicate ActedAt(events: seq<Event>, time: int)
  {
    exists k :: 0 <= k < |events| && events[k].WorkerAct? && events[k].now == time
  }

  lemma {:induction false} StretchIsPaced(s: Client, events: seq<Event>, lo: int, hi: int)
    requires s.giInterval >= 0 && hi < CLOCK_LIMIT && SteadyClock(events, lo, hi)
    ensures Paced(s, After(s, events), events, lo, hi)
  {
    if events != [] {
      var n := |events| - 1;
      StretchIsPaced(s, events[..n], lo, hi);
      StretchStep(s, After(s, events[..n]), events, lo, hi);
    }
  }

  lemma StretchStep(s: Client, before: Client, events: seq<Event>, lo: int, hi: int)
    requires s.giInterval >= 0 && hi < CLOCK_LIMIT && SteadyClock(events, lo, hi) && events != []
    requires Paced(s, before, events[..|events| - 1], lo, hi)
    ensures Paced(s, Step(before, events[|events| - 1]), events, lo, hi)
  {
    var n := |events| - 1;
    var e, t, times := events[n], Step(before, events[n]), NewTimes(s, before);
    if times != [] {
      var k :| 0 <= k < n && events[..n][k].WorkerAct? && events[..n][k].now == before.lastGi;
      assert events[k].now == before.lastGi;
    }
    StepPaces(before, e);
    if t.giTimes != before.giTimes {
      assert events[n].now == t.lastGi;
      TimesGrow(s, before, t, e.now, lo, hi);
    } else if times != [] {
      assert ActedAt(events, t.lastGi);
    }
  }

  /** A step either records nothing, or is an action that records its own time -- later than
      the last one by more than the interval, unless the clock had jumped back. */
  lemma StepPaces(s: Client, e: Event)
    requires s.giInterval >= 0 && (e.WorkerAct? ==> e.now < CLOCK_LIMIT)
    ensures var t := Step(s, e);
      && t.giInterval == s.giInterval
      && (t.giTimes != s.giTimes ==>
            e.WorkerAct? && t.giTimes == s.giTimes + [e.now] && t.lastGi == e.now
            && (s.lastGi <= e.now ==> s.lastGi + s.giInterval + 1 <= e.now))
      && (t.giTimes == s.giTimes && (e.WorkerAct? ==> s.lastGi <= e.now) ==> t.lastGi == s.lastGi)
  {
    if e.WorkerAct? && s.lastGi <= e.now {
      ActPaces(s, e.now);
    }
  }

  lemma TimesGrow(s: Client, before: Client, t: Client, now: int, lo: int, hi: int)
    requires s.giTimes <= before.giTimes && t.giTimes == before.giTimes + [now] && lo <= now <= hi
    requires var times := NewTimes(s, before);
      && Spaced(times, s.giInterval + 1) && (forall i :: 0 <= i < |times| ==> lo <= times[i] <= hi)
      && (times != [] ==> times[|times| - 1] + s.giInterval + 1 <= now)
    ensures s.giTimes <= t.giTimes
    ensures var times := NewTimes(s, t);
      && Spaced(times, s.giInterval + 1) && (forall i :: 0 <= i < |times| ==> lo <= times[i] <= hi)
      && times != [] && times[|times| - 1] == now
  {
    var times := NewTimes(s, before);
    assert NewTimes(s, t) == times + [now];
    SpacedSnoc(times, now, s.giInterval + 1);
  }

  /** While the clock moves steadily from `lo` to `hi`, at most one interrogation more is
      issued than intervals-plus-one fit in between. */
  lemma InterrogationsBounded(s: Client, events: seq<Event>, lo: int, hi: int)
    requires s.giInterval >= 0 && lo <= hi < CLOCK_LIMIT && SteadyClock(events, lo, hi)
    ensures var t := After(s, events);
      |s.giTimes| <= |t.giTimes| && (|t.giTimes| - |s.giTimes| - 1) * (s.giInterval + 1) <= hi - lo
  {
    StretchIsPaced(s, events, lo, hi);
    SpacedCount(NewTimes(s, After(s, events)), s.giInterval + 1, lo, hi);
  }

  /** After any reading of the clock, also one that jumped back, the timing branch leaves the
      last interrogation no later than now; so a reading more than an interval later is due. */
  lemma NextWithinInterval(s: Client, now: UInt64, later: UInt64)
    requires s.startDtSent && s.lastEvent != Some(Opened) && s.lastEvent != Some(Closed) && s.lastEvent != Some(Failed)
    requires 0 <= s.giInterval && now < CLOCK_LIMIT && later > now + s.giInterval
    ensures Act(s, now).lastGi <= now
    ensures Act(Act(s, now), later).giTimes == Act(s, now).giTimes + [later]
  {
  }

  // ----- the object -----

  class IEC104Client {
    const giIntervalMs: Int32
    var running: bool
    var startDtSent: bool
    var lastEvent: Option<ConnectionEvent>
    var lastGiSent: UInt64
    var semaphore: int
    var worker: Worker
    var joinable: bool
    var stopping: bool
    var terminated: bool
    ghost var delivered: nat
    ghost var sends: seq<Send>
    ghost var giTimes: seq<int>

    ghost function State(): Client
      reads this
    {
      Client(giIntervalMs, running, startDtSent, lastEvent, lastGiSent, semaphore, worker, joinable, stopping,
             terminated, delivered, sends, giTimes)
    }

    constructor (giIntervalMs: Int32)
      ensures State() == Initial(giIntervalMs)
    {
      this.giIntervalMs := giIntervalMs;
      running, startDtSent, lastEvent, lastGiSent := false, false, None, 0;
      semaphore, worker, joinable, stopping, terminated := 1, NoThread, false, false, false;
      delivered, sends, giTimes := 0, [], [];
    }

    /** `start`: a thread object that still holds a thread must not be assigned to. */
    method StartClient() returns (ok: bool)
      requires !terminated
      modifies this
      ensures State() == Step(old(State()), Start)
      ensures ok == !old(running)
    {
      if running {
        return false;
      }
      running := true;
      if joinable {
        terminated := true;
      } else {
        worker, joinable := Testing, true;
      }
      return true;
    }

    method BeginStop()
      requires !terminated
      modifies this
      ensures State() == Step(old(State()), StopBegin)
    {
      if running {
        running, stopping := false, true;
      }
    }

    /** The rest of `stop`, once the worker has ended. */
    method FinishStop()
      requires !terminated && stopping && worker == Ended
      modifies this
      ensures State() == Step(old(State()), StopJoin)
    {
      joinable, stopping := false, false;
      if startDtSent {
        Transmit(StopDT);
      }
    }

    method ConnectionHandler(event: ConnectionEvent)
      requires !terminated
      modifies this
      ensures State() == Step(old(State()), Callback(event))
    {
      lastEvent := Some(event);
      semaphore := semaphore + 1;
      delivered := delivered + 1;
    }

    /** `sendStartDT`, `sendStopDT` and `sendInterrogationCommand`. */
    method Transmit(what: Send)
      modifies this
      ensures State() == Sent(old(State()), what)
    {
      if !running {
        return;
      }
      if what == Interrogation && !startDtSent {
        return;
      }
      sends := sends + [what];
    }

    method TestLoop()
      requires !terminated && worker == Testing
      modifies this
      ensures State() == Step(old(State()), WorkerTest)
    {
      worker := if running then Waiting else Ended;
    }

    method WaitSemaphore()
      requires !terminated && worker == Waiting && semaphore > 0
      modifies this
      ensures State() == Step(old(State()), WorkerWait)
    {
      semaphore, worker := semaphore - 1, Entered;
    }

    /** The body of the worker's section. */
    method React(now: UInt64)
      requires !terminated && worker == Entered
      modifies this
      ensures State() == Step(old(State()), WorkerAct(now))
    {
      if lastEvent == Some(Opened) {
        Transmit(StartDT);
      } else if lastEvent == Some(Closed) || lastEvent == Some(Failed) {
        running := false;
      } else if startDtSent {
        PaceInterrogation(now);
      }
      worker := Acted;
    }

    /** Its timing branch. */
    method PaceInterrogation(now: UInt64)
      modifies this
      ensures State() == Pace(old(State()), now)
    {
      if now < lastGiSent {
        lastGiSent := now;
      }
      if now > (lastGiSent + giIntervalMs) % UINT64_SPAN {
        lastGiSent := now;
        giTimes := giTimes + [now];
        Transmit(Interrogation);
      }
    }

    method PostSemaphore()
      requires !terminated && worker == Acted
      modifies this
      ensures State() == Step(old(State()), WorkerPost)
    {
      semaphore, worker := semaphore + 1, Testing;
    }
  }
}
