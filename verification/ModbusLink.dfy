/** The Modbus connection: a reconnect loop with a retry budget, beside callers that read and
    write. Loop turns and I/O calls are atomic steps in any order. */
module ModbusLink {

  /** How building a connection goes: the context is allocated, given the slave address,
      connected. */
  datatype Creation = AllocationFailed | SlaveRefused | ConnectFailed | Connected

  datatype Event = LoopTurn(creation: Creation) | Io(libraryOk: bool) | StopCalled

  datatype Loop = Looping | Exhausted | Left

  /** `attempts` records the loop's attempts in order, `built` and `freed` the contexts
      allocated and released so far. */
  datatype Link = Link(maxRetries: int, connected: bool, running: bool, retries: nat, loop: Loop,
                       attempts: seq<bool>, built: nat, freed: nat)

  function Count(flag: bool): nat
  {
    if flag then 1 else 0
  }

  function Initial(maxRetries: int, creation: Creation): Link
  {
    Link(maxRetries, creation == Connected, true, 0, Looping, [],
         Count(creation != AllocationFailed), 0)
  }

  /** One attempt of the loop to build a connection. */
  function Attempt(s: Link, creation: Creation): Link
  {
    s.(connected := creation == Connected,
       retries := if creation == Connected then 0 else s.retries + 1,
       attempts := s.attempts + [creation == Connected],
       built := s.built + Count(creation != AllocationFailed))
  }

  function Step(s: Link, e: Event): Link
  {
    match e
    case LoopTurn(creation) =>
      if s.loop != Looping then s
      else if !s.running then s.(loop := Left)
      else if s.connected then s
      else if s.maxRetries > 0 && s.retries >= s.maxRetries then s.(loop := Exhausted)
      else Attempt(s, creation)
    case Io(libraryOk) =>
      if s.connected && !libraryOk then s.(connected := false, freed := s.freed + 1) else s
    case StopCalled => s.(running := false)
  }

  /** What a read or write returns. */
  function IoResult(s: Link, libraryOk: bool): bool
  {
    s.connected && libraryOk
  }

  function After(s: Link, events: seq<Event>): Link
  {
    if events == [] then s else Step(After(s, events[..|events| - 1]), events[|events| - 1])
  }

  // ----- reference counts over the attempts -----

  function Failures(attempts: seq<bool>): nat
  {
    if attempts == [] then 0
    else Failures(attempts[..|attempts| - 1]) + Count(!attempts[|attempts| - 1])
  }

  function Successes(attempts: seq<bool>): nat
  {
    if attempts == [] then 0
    else Successes(attempts[..|attempts| - 1]) + Count(attempts[|attempts| - 1])
  }

  /** Failed attempts since the last success. */
  function Streak(attempts: seq<bool>): nat
  {
    if attempts == [] || attempts[|attempts| - 1] then 0 else Streak(attempts[..|attempts| - 1]) + 1
  }

  // ----- every reachable state -----

  ghost predicate Invariant(s: Link)
  {
    && s.retries == Streak(s.attempts)
    && (s.maxRetries > 0 ==> s.retries <= s.maxRetries)
    && (s.maxRetries > 0 ==> Failures(s.attempts) <= s.maxRetries * Successes(s.attempts) + s.retries)
    && (s.loop == Exhausted ==> s.maxRetries > 0 && s.retries == s.maxRetries && !s.connected)
  }

  lemma StepKeepsInvariant(s: Link, e: Event)
    requires Invariant(s)
    ensures Invariant(Step(s, e))
  {
    if e.LoopTurn? && Step(s, e) == Attempt(s, e.creation) {
      AttemptKeepsInvariant(s, e.creation);
    }
  }

  lemma AttemptKeepsInvariant(s: Link, creation: Creation)
    requires Invariant(s) && s.loop != Exhausted && !s.connected
    requires s.maxRetries > 0 ==> s.retries < s.maxRetries
    ensures Invariant(Attempt(s, creation))
  {
    var t := Attempt(s, creation);
    assert t.attempts[..|t.attempts| - 1] == s.attempts;
    if t.connected {
      TimesNext(s.maxRetries, Successes(s.attempts));
      assert Successes(t.attempts) == Successes(s.attempts) + 1;
    }
  }

  /** In every run the retry counter is the current streak of failures, and a limited budget
      bounds the failures by the successes. */
  lemma {:induction false} RunKeepsInvariant(maxRetries: int, creation: Creation, events: seq<Event>)
    ensures Invariant(After(Initial(maxRetries, creation), events))
    ensures After(Initial(maxRetries, creation), events).maxRetries == maxRetries
  {
    if events != [] {
      RunKeepsInvariant(maxRetries, creation, events[..|events| - 1]);
      StepKeepsInvariant(After(Initial(maxRetries, creation), events[..|events| - 1]), events[|events| - 1]);
    }
  }

  /** The budget bounds all failures of a run by its successes. */
  lemma FailuresWithinBudget(maxRetries: int, creation: Creation, events: seq<Event>)
    requires maxRetries > 0
    ensures var s := After(Initial(maxRetries, creation), events);
      Failures(s.attempts) <= maxRetries * (Successes(s.attempts) + 1)
  {
    RunKeepsInvariant(maxRetries, creation, events);
    TimesNext(maxRetries, Successes(After(Initial(maxRetries, creation), events).attempts));
  }

  lemma TimesNext(m: int, n: int)
    ensures m * (n + 1) == m * n + m
  {
  }

  /** A turn ends the loop by exhaustion exactly when it finds no connection and the last
      `maxRetries` attempts failed, the budget being limited. */
  lemma ExhaustsIff(maxRetries: int, creation: Creation, events: seq<Event>, next: Creation)
    ensures var s := After(Initial(maxRetries, creation), events);
      s.loop == Looping ==>
        (Step(s, LoopTurn(next)).loop == Exhausted
         <==> s.running && !s.connected && maxRetries > 0 && Streak(s.attempts) == maxRetries)
  {
    RunKeepsInvariant(maxRetries, creation, events);
  }

  lemma {:induction false} EndedLoopOnlyLoses(s: Link, events: seq<Event>)
    requires s.loop != Looping
    ensures var t := After(s, events);
      t.loop == s.loop && t.attempts == s.attempts && (t.connected ==> s.connected)
  {
    if events != [] {
      EndedLoopOnlyLoses(s, events[..|events| - 1]);
    }
  }

  /** Once the budget is exhausted the device stays unavailable: whatever happens next there
      is no connection, no further attempt, and every read and write fails. */
  lemma ExhaustedForGood(maxRetries: int, creation: Creation, events: seq<Event>, later: seq<Event>, libraryOk: bool)
    requires After(Initial(maxRetries, creation), events).loop == Exhausted
    ensures var s := After(Initial(maxRetries, creation), events);
      && !After(s, later).connected && !IoResult(After(s, later), libraryOk)
      && After(s, later).attempts == s.attempts && Step(After(s, later), Io(libraryOk)) == After(s, later)
  {
    RunKeepsInvariant(maxRetries, creation, events);
    EndedLoopOnlyLoses(After(Initial(maxRetries, creation), events), later);
  }

  // ----- contexts that nobody frees -----

  /** The creation allocates a context and then fails. */
  predicate HalfBuilt(creation: Creation)
  {
    creation == SlaveRefused || creation == ConnectFailed
  }

  /** A turn in this state makes an attempt. */
  predicate Attempting(s: Link)
  {
    s.loop == Looping && s.running && !s.connected && !(s.maxRetries > 0 && s.retries >= s.maxRetries)
  }

  /** The k-th event of a run from `s` is an attempt that fails after allocation. */
  ghost predicate LosesAt(s: Link, events: seq<Event>, k: nat)
  {
    k < |events| && events[k].LoopTurn? && HalfBuilt(events[k].creation) && Attempting(After(s, events[..k]))
  }

  ghost function Losses(s: Link, events: seq<Event>): set<nat>
  {
    set k | 0 <= k < |events| && LosesAt(s, events, k)
  }

  /** In every run the contexts allocated are those freed, the one in use, and exactly one for
      each creation, the first one included, that failed after allocation: `destroy` releases
      none of these. */
  lemma {:induction false} ContextsLost(maxRetries: int, creation: Creation, events: seq<Event>)
    ensures var s := After(Initial(maxRetries, creation), events);
      s.built == s.freed + Count(s.connected) + Count(HalfBuilt(creation))
                 + |Losses(Initial(maxRetries, creation), events)|
  {
    var start := Initial(maxRetries, creation);
    if events == [] {
      assert Losses(start, events) == {};
    } else {
      ContextsLost(maxRetries, creation, events[..|events| - 1]);
      LossesSnoc(start, events);
    }
  }

  lemma LossesSnoc(s: Link, events: seq<Event>)
    requires events != []
    ensures var n := |events| - 1;
      |Losses(s, events)| == |Losses(s, events[..n])| + Count(LosesAt(s, events, n))
  {
    var n := |events| - 1;
    var before, after := Losses(s, events[..n]), Losses(s, events);
    forall k: nat ensures k in after <==> k in before || (k == n && LosesAt(s, events, n)) {
      if k < n {
        LossStays(s, events, k);
      }
    }
    if LosesAt(s, events, n) {
      assert after == before + {n};
    } else {
      assert after == before;
    }
  }

  lemma LossStays(s: Link, events: seq<Event>, k: nat)
    requires k < |events| - 1
    ensures LosesAt(s, events[..|events| - 1], k) <==> LosesAt(s, events, k)
  {
    assert events[..|events| - 1][..k] == events[..k];
  }

  /** So no context is lost exactly when the creation never fails after allocation: neither at
      the start nor in a turn that makes an attempt. */
  lemma NoContextLostIff(maxRetries: int, creation: Creation, events: seq<Event>)
    ensures var start := Initial(maxRetries, creation);
      var s := After(start, events);
      s.built == s.freed + Count(s.connected)
      <==> !HalfBuilt(creation) && forall k :: 0 <= k < |events| ==> !LosesAt(start, events, k)
  {
    ContextsLost(maxRetries, creation, events);
    var losses := Losses(Initial(maxRetries, creation), events);
    assert |losses| == 0 <==> losses == {};
    if k :| 0 <= k < |events| && LosesAt(Initial(maxRetries, creation), events, k) {
      assert k in losses;
    }
  }

  // ----- the object -----

  class ModbusApi {
    const maxRetries: int
    var connected: bool
    var running: bool
    var retries: nat
    var loop: Loop
    ghost var attempts: seq<bool>
    ghost var built: nat
    ghost var freed: nat

    ghost function State(): Link
      reads this
    {
      Link(maxRetries, connected, running, retries, loop, attempts, built, freed)
    }

    constructor (maxRetries: int, creation: Creation)
      ensures State() == Initial(maxRetries, creation)
    {
      this.maxRetries := maxRetries;
      running, retries, loop := true, 0, Looping;
      connected, attempts, built, freed := false, [], 0, 0;
      new;
      connected := CreateModbusContext(creation);
    }

    /** Builds a context. On a failure after allocation it calls `Destroy`, which looks at the
        object's own context -- null here -- so the new one is left behind. */
    method CreateModbusContext(creation: Creation) returns (ok: bool)
      requires !connected
      modifies this
      ensures ok == (creation == Connected)
      ensures State() == old(State()).(built := old(built) + Count(creation != AllocationFailed))
    {
      if creation == AllocationFailed {
        return false;
      }
      built := built + 1;
      if creation == SlaveRefused || creation == ConnectFailed {
        Destroy();
        return false;
      }
      return true;
    }

    method Destroy()
      modifies this
      ensures State() == old(State()).(connected := false, freed := old(freed) + Count(old(connected)))
    {
      if connected {
        connected, freed := false, freed + 1;
      }
    }

    /** One turn of `reconnectLoop`. */
    method ReconnectTurn(creation: Creation)
      modifies this
      ensures State() == Step(old(State()), LoopTurn(creation))
    {
      if loop != Looping {
        return;
      }
      if !running {
        loop := Left;
        return;
      }
      if !connected {
        if maxRetries > 0 && retries >= maxRetries {
          loop := Exhausted;
          return;
        }
        connected := CreateModbusContext(creation);
        attempts := attempts + [connected];
        if connected {
          retries := 0;
        } else {
          retries := retries + 1;
        }
      }
    }

    /** `readRegisters`, `writeRegister` and `writeRegisters` share this behaviour. */
    method Transfer(libraryOk: bool) returns (ok: bool)
      modifies this
      ensures State() == Step(old(State()), Io(libraryOk))
      ensures ok == IoResult(old(State()), libraryOk)
    {
      if !connected {
        return false;
      }
      if !libraryOk {
        Destroy();
        return false;
      }
      return true;
    }

    method Stop()
      modifies this
      ensures State() == Step(old(State()), StopCalled)
    {
      running := false;
    }
  }
}
