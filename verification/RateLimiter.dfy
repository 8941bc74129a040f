/** The per-key rate limiter of the log macros. */
module RateLimiter {
  import opened Spacing

  const NANOS_PER_MILLI: int := 1_000_000

  /** A call with a key, at a reading of the steady clock in nanoseconds. */
  datatype Call = Call(key: string, now: int)

  type Table = map<string, int>

  /** `duration_cast` to whole milliseconds drops the remainder, toward zero. */
  function Milliseconds(nanos: int): int
  {
    if nanos >= 0 then nanos / NANOS_PER_MILLI else -(-nanos / NANOS_PER_MILLI)
  }

  function Accepts(table: Table, call: Call, interval: int): bool
  {
    call.key !in table || Milliseconds(call.now - table[call.key]) >= interval
  }

  function Updated(table: Table, call: Call, interval: int): Table
  {
    if Accepts(table, call, interval) then table[call.key := call.now] else table
  }

  class LogRateLimiter {
    var lastLogTimes: Table

    constructor ()
      ensures lastLogTimes == map[]
    {
      lastLogTimes := map[];
    }

    method ShouldLog(key: string, interval: int, now: int) returns (ok: bool)
      modifies this
      ensures ok == Accepts(old(lastLogTimes), Call(key, now), interval)
      ensures lastLogTimes == Updated(old(lastLogTimes), Call(key, now), interval)
    {
      if key !in lastLogTimes || Milliseconds(now - lastLogTimes[key]) >= interval {
        lastLogTimes := lastLogTimes[key := now];
        return true;
      }
      return false;
    }
  }

  // ----- runs; each key has its own interval, as each call site has -----

  type Intervals = string -> int

  ghost function TableAfter(calls: seq<Call>, intervals: Intervals): Table
  {
    if calls == [] then map[]
    else
      var n := |calls| - 1;
      Updated(TableAfter(calls[..n], intervals), calls[n], intervals(calls[n].key))
  }

  /** Times of the accepted calls with a key. */
  ghost function AcceptedTimes(calls: seq<Call>, intervals: Intervals, key: string): seq<int>
  {
    if calls == [] then []
    else
      var n := |calls| - 1;
      AcceptedTimes(calls[..n], intervals, key)
      + if calls[n].key == key && Accepts(TableAfter(calls[..n], intervals), calls[n], intervals(key))
        then [calls[n].now] else []
  }

  ghost function OfKey(calls: seq<Call>, key: string): seq<Call>
  {
    if calls == [] then []
    else OfKey(calls[..|calls| - 1], key) + if calls[|calls| - 1].key == key then [calls[|calls| - 1]] else []
  }

  ghost predicate ClockAdvances(calls: seq<Call>)
  {
    forall i, j :: 0 <= i < j < |calls| ==> calls[i].now <= calls[j].now
  }

  lemma MillisecondsAtLeast(nanos: int, interval: int)
    requires nanos >= 0 && interval > 0
    ensures Milliseconds(nanos) >= interval <==> nanos >= interval * NANOS_PER_MILLI
  {
  }

  /** The table holds, for each key, exactly the time of its last accepted call. */
  lemma {:induction false} TableIsLastAccepted(calls: seq<Call>, intervals: Intervals, key: string)
    ensures var times := AcceptedTimes(calls, intervals, key);
      && (key in TableAfter(calls, intervals) <==> times != [])
      && (times != [] ==> TableAfter(calls, intervals)[key] == times[|times| - 1])
  {
    if calls != [] {
      TableIsLastAccepted(calls[..|calls| - 1], intervals, key);
    }
  }

  lemma {:induction false} AcceptedNotLater(calls: seq<Call>, intervals: Intervals, key: string)
    requires ClockAdvances(calls) && AcceptedTimes(calls, intervals, key) != []
    ensures calls != []
    ensures var times := AcceptedTimes(calls, intervals, key); times[|times| - 1] <= calls[|calls| - 1].now
  {
    var n := |calls| - 1;
    if AcceptedTimes(calls[..n], intervals, key) != [] {
      AcceptedNotLater(calls[..n], intervals, key);
    }
  }

  /** Under an advancing clock the accepted calls of a key keep its interval between them,
      whatever other keys do. */
  lemma {:induction false} AcceptedAreSpaced(calls: seq<Call>, intervals: Intervals, key: string)
    requires ClockAdvances(calls) && intervals(key) > 0
    ensures Spaced(AcceptedTimes(calls, intervals, key), intervals(key) * NANOS_PER_MILLI)
  {
    if calls != [] {
      var n := |calls| - 1;
      var times := AcceptedTimes(calls[..n], intervals, key);
      AcceptedAreSpaced(calls[..n], intervals, key);
      TableIsLastAccepted(calls[..n], intervals, key);
      if calls[n].key == key && Accepts(TableAfter(calls[..n], intervals), calls[n], intervals(key)) {
        if times != [] {
          AcceptedNotLater(calls[..n], intervals, key);
          MillisecondsAtLeast(calls[n].now - times[|times| - 1], intervals(key));
        }
        SpacedSnoc(times, calls[n].now, intervals(key) * NANOS_PER_MILLI);
      }
    }
  }

  /** A window of `length` nanoseconds holds at most one accepted call more than whole
      intervals fit into it. */
  lemma AcceptedInWindow(calls: seq<Call>, intervals: Intervals, key: string, i: nat, j: nat)
    requires ClockAdvances(calls) && intervals(key) > 0
    requires i < j <= |AcceptedTimes(calls, intervals, key)|
    ensures var times := AcceptedTimes(calls, intervals, key);
      (j - i - 1) * (intervals(key) * NANOS_PER_MILLI) <= times[j - 1] - times[i]
  {
    var times := AcceptedTimes(calls, intervals, key);
    AcceptedAreSpaced(calls, intervals, key);
    SpacedReach(times[i..j], intervals(key) * NANOS_PER_MILLI);
  }

  /** A call is rejected exactly when the key's last accepted call is less than the interval
      ago, however the clock has moved; so a first call and a call an interval later are
      accepted. An interval that is not positive rejects only after the clock has jumped back. */
  lemma RejectedIff(calls: seq<Call>, intervals: Intervals, call: Call)
    ensures var times, interval := AcceptedTimes(calls, intervals, call.key), intervals(call.key);
      !Accepts(TableAfter(calls, intervals), call, interval)
      <==> times != []
           && var since := call.now - times[|times| - 1];
              if interval > 0 then since < interval * 1_000_000 else since <= (interval - 1) * 1_000_000
  {
    var times, interval := AcceptedTimes(calls, intervals, call.key), intervals(call.key);
    TableIsLastAccepted(calls, intervals, call.key);
    if times != [] {
      MillisecondsReach(call.now - times[|times| - 1], interval);
    }
  }

  lemma MillisecondsReach(nanos: int, interval: int)
    ensures Milliseconds(nanos) >= interval
            <==> if interval > 0 then nanos >= interval * 1_000_000 else nanos > (interval - 1) * 1_000_000
  {
  }

  /** The accepted times once a call with the same key has been made. */
  ghost function WithNext(times: seq<int>, now: int, interval: int): seq<int>
  {
    if times == [] || Milliseconds(now - times[|times| - 1]) >= interval then times + [now] else times
  }

  /** Whether a call is accepted depends only on the last accepted call with its key. */
  lemma AcceptedNext(calls: seq<Call>, call: Call, intervals: Intervals)
    ensures AcceptedTimes(calls + [call], intervals, call.key)
            == WithNext(AcceptedTimes(calls, intervals, call.key), call.now, intervals(call.key))
  {
    TableIsLastAccepted(calls, intervals, call.key);
    assert (calls + [call])[..|calls|] == calls;
  }

  lemma OtherKeyIsSkipped(calls: seq<Call>, call: Call, intervals: Intervals, key: string)
    ensures OfKey(calls + [call], key) == if call.key == key then OfKey(calls, key) + [call] else OfKey(calls, key)
    ensures call.key != key ==> AcceptedTimes(calls + [call], intervals, key) == AcceptedTimes(calls, intervals, key)
  {
    assert (calls + [call])[..|calls|] == calls;
  }

  /** Keys do not influence each other: dropping all other keys' calls changes nothing. */
  lemma {:induction false} KeysAreIndependent(calls: seq<Call>, intervals: Intervals, key: string)
    ensures AcceptedTimes(calls, intervals, key) == AcceptedTimes(OfKey(calls, key), intervals, key)
  {
    if calls != [] {
      var front, call := calls[..|calls| - 1], calls[|calls| - 1];
      assert calls == front + [call];
      KeysAreIndependent(front, intervals, key);
      OtherKeyIsSkipped(front, call, intervals, key);
      if call.key == key {
        AcceptedNext(front, call, intervals);
        AcceptedNext(OfKey(front, key), call, intervals);
      }
    }
  }
}
