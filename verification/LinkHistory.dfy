/** The Modbus link's behaviour told from the events alone: when there is a connection, and
    which turns of the loop try to build one. */
module LinkHistory {
  import opened ModbusLink

  ghost predicate StoppedBefore(events: seq<Event>, k: nat)
  {
    exists j :: 0 <= j < k && j < |events| && events[j] == StopCalled
  }

  /** The k-th event of a run is a turn that tries to build a connection. */
  ghost predicate AttemptsAt(start: Link, events: seq<Event>, k: nat)
  {
    k < |events| && |After(start, events[..k + 1]).attempts| > |After(start, events[..k]).attempts|
  }

  /** A connection stands before the k-th event: built at first or by the attempt just made. */
  ghost predicate BuiltBefore(start: Link, creation: Creation, events: seq<Event>, k: nat)
  {
    if k == 0 then creation == Connected
    else AttemptsAt(start, events, k - 1) && events[k - 1] == LoopTurn(Connected)
  }

  /** It was built before the k-th event, and no read or write has failed since, up to the n-th. */
  ghost predicate Stands(start: Link, creation: Creation, events: seq<Event>, k: nat, n: nat)
  {
    k <= n <= |events| && BuiltBefore(start, creation, events, k)
    && forall j :: k <= j < n ==> events[j] != Io(false)
  }

  ghost predicate Standing(start: Link, creation: Creation, events: seq<Event>, n: nat)
  {
    exists k: nat :: Stands(start, creation, events, k, n)
  }

  /** In every run there is a connection exactly if one was built and no read or write has
      failed since. */
  lemma {:induction false} ConnectedIff(maxRetries: int, creation: Creation, events: seq<Event>, n: nat)
    requires n <= |events|
    ensures After(Initial(maxRetries, creation), events[..n]).connected
            <==> Standing(Initial(maxRetries, creation), creation, events, n)
  {
    var start := Initial(maxRetries, creation);
    if n == 0 {
      assert creation == Connected ==> Stands(start, creation, events, 0, 0);
    } else {
      ConnectedIff(maxRetries, creation, events, n - 1);
      ConnectedNext(start, events, n);
      StandsNext(start, creation, events, n);
    }
  }

  lemma StandsNext(start: Link, creation: Creation, events: seq<Event>, n: nat)
    requires 0 < n <= |events|
    ensures Standing(start, creation, events, n)
            <==> (events[n - 1] != Io(false) && Standing(start, creation, events, n - 1))
                 || BuiltBefore(start, creation, events, n)
  {
    var before := n - 1;
    if events[before] != Io(false) {
      if k: nat :| Stands(start, creation, events, k, before) {
        assert Stands(start, creation, events, k, n);
      }
    }
    if BuiltBefore(start, creation, events, n) {
      assert Stands(start, creation, events, n, n);
    }
    if k: nat :| Stands(start, creation, events, k, n) {
      assert k < n ==> Stands(start, creation, events, k, n - 1);
    }
  }

  lemma ConnectedNext(start: Link, events: seq<Event>, n: nat)
    requires 0 < n <= |events|
    ensures var s, t := After(start, events[..n - 1]), After(start, events[..n]);
      t.connected
      <==> (s.connected && events[n - 1] != Io(false))
           || (AttemptsAt(start, events, n - 1) && events[n - 1] == LoopTurn(Connected))
  {
    assert events[..n][..n - 1] == events[..n - 1];
  }

  /** A read or write succeeds exactly with such a connection and a success of the library. */
  lemma TransferSucceedsIff(maxRetries: int, creation: Creation, events: seq<Event>, libraryOk: bool)
    ensures IoResult(After(Initial(maxRetries, creation), events), libraryOk)
            <==> libraryOk && Standing(Initial(maxRetries, creation), creation, events, |events|)
  {
    ConnectedIff(maxRetries, creation, events, |events|);
    assert events[..|events|] == events;
  }

  // ----- attempts -----

  /** How the loop can have ended. */
  ghost predicate LoopEndsFor(s: Link, stopped: bool)
  {
    && (!s.running <==> stopped)
    && (s.loop == Left ==> stopped)
  }

  lemma {:induction false} EndIsHistory(maxRetries: int, creation: Creation, events: seq<Event>, n: nat)
    requires n <= |events|
    ensures LoopEndsFor(After(Initial(maxRetries, creation), events[..n]), StoppedBefore(events, n))
  {
    if n > 0 {
      EndIsHistory(maxRetries, creation, events, n - 1);
      assert events[..n][..n - 1] == events[..n - 1];
      assert StoppedBefore(events, n) <==> StoppedBefore(events, n - 1) || events[n - 1] == StopCalled;
    }
  }

  /** In every run a turn of the loop tries to build a connection exactly when `stop` has not
      been called, there is no connection, and the last `maxRetries` attempts have not all
      failed (or the budget is not limited); it then records its outcome, and nothing else
      is ever recorded. */
  lemma AttemptsIff(maxRetries: int, creation: Creation, events: seq<Event>, k: nat)
    requires k < |events|
    ensures var start := Initial(maxRetries, creation);
      var s, t := After(start, events[..k]), After(start, events[..k + 1]);
      && (AttemptsAt(start, events, k)
          <==> events[k].LoopTurn? && !StoppedBefore(events, k) && !s.connected
               && !(maxRetries > 0 && Streak(s.attempts) == maxRetries))
      && t.attempts == if AttemptsAt(start, events, k)
                       then s.attempts + [events[k].creation == Connected] else s.attempts
  {
    EndIsHistory(maxRetries, creation, events, k);
    RunKeepsInvariant(maxRetries, creation, events[..k]);
    assert events[..k + 1][..k] == events[..k];
  }

  /** After a failed read or write the link is down -- every transfer fails -- until a turn of
      the loop builds a connection; the next turn tries to, unless the loop was told to stop or
      its budget is used up. */
  lemma FailedTransferReconnects(maxRetries: int, creation: Creation, events: seq<Event>, k: nat)
    requires k + 1 < |events| && events[k] == Io(false) && events[k + 1].LoopTurn?
    requires !StoppedBefore(events, k + 1)
    ensures var start := Initial(maxRetries, creation);
      var s, t := After(start, events[..k + 1]), After(start, events[..k + 2]);
      && (forall libraryOk :: !IoResult(s, libraryOk))
      && (maxRetries <= 0 || Streak(s.attempts) < maxRetries ==>
            && t.attempts == s.attempts + [events[k + 1].creation == Connected]
            && (IoResult(t, true) <==> events[k + 1].creation == Connected))
  {
    var start := Initial(maxRetries, creation);
    ConnectedNext(start, events, k + 1);
    AttemptsIff(maxRetries, creation, events, k + 1);
    ConnectedNext(start, events, k + 2);
  }
}
