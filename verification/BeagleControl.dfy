/** The demo server: who controls the outputs, and the timed toggling while nobody does. */
module BeagleControl {
  import opened Wrappers

  type Client = nat

  const INT32_SPAN: int := 0x1_0000_0000
  const INT32_LIMIT: int := 0x8000_0000
  const UINT64_SPAN: int := 0x1_0000_0000_0000_0000

  type Int32 = x: int | -INT32_LIMIT <= x < INT32_LIMIT
  type UInt64 = x: int | 0 <= x < UINT64_SPAN

  function WrapInt32(x: int): Int32
  {
    (x + INT32_LIMIT) % INT32_SPAN - INT32_LIMIT
  }

  /** An automatic toggle: when, to what, and the setting that then times the next one. */
  datatype Toggle = Toggle(at: UInt64, ledOn: bool, period: Int32)

  datatype Attribute = OpDlTmms | RsDlTmms | OtherAttribute

  datatype Event =
    | ConnectionChange(client: Client, connected: bool)
    | Check(client: Client, test: bool)
    | Int32Control(opCntRs: bool, value: Int32, test: bool)
    | WriteSetting(attribute: Attribute, value: Int32)
    | Turn(now: UInt64)

  datatype Demo = Demo(controlling: Option<Client>, automatic: bool, ledOnMs: Int32, ledOffMs: Int32,
                       opCnt: Int32, led: bool, nextToggle: UInt64, toggles: seq<Toggle>)

  function Initial(now: UInt64): Demo
  {
    Demo(None, true, 1000, 1000, 0, false, (now + 1000) % UINT64_SPAN, [])
  }

  // ----- the handlers' answers -----

  datatype CheckResult = Accepted | TemporarilyUnavailable

  datatype WriteResult = WriteOk | ValueInvalid | AccessDenied

  /** Control is taken before the test flag is looked at. */
  function CheckAnswer(s: Demo, client: Client, test: bool): CheckResult
  {
    if test then TemporarilyUnavailable
    else if s.controlling == None || s.controlling == Some(client) then Accepted
    else TemporarilyUnavailable
  }

  function WriteAnswer(attribute: Attribute, value: Int32): WriteResult
  {
    if value < 0 then ValueInvalid else if attribute == OtherAttribute then AccessDenied else WriteOk
  }

  predicate TogglesAt(s: Demo, now: UInt64)
  {
    s.automatic && s.nextToggle <= now
  }

  function Step(s: Demo, e: Event): Demo
  {
    match e
    case ConnectionChange(client, connected) =>
      if !connected && s.controlling == Some(client) then s.(controlling := None, automatic := true) else s
    case Check(client, _) =>
      if s.controlling == None then s.(controlling := Some(client), automatic := false) else s
    case Int32Control(opCntRs, value, test) =>
      if !test && opCntRs then s.(opCnt := value) else s
    case WriteSetting(attribute, value) =>
      if WriteAnswer(attribute, value) != WriteOk then s
      else if attribute == OpDlTmms then s.(ledOffMs := value) else s.(ledOnMs := value)
    case Turn(now) =>
      if !TogglesAt(s, now) then s
      else
        var period := if s.led then s.ledOffMs else s.ledOnMs;
        s.(nextToggle := (now + period) % UINT64_SPAN,
           led := !s.led,
           opCnt := if s.led then s.opCnt else WrapInt32(s.opCnt + 1),
           toggles := s.toggles + [Toggle(now, !s.led, period)])
  }

  function After(s: Demo, events: seq<Event>): Demo
  {
    if events == [] then s else Step(After(s, events[..|events| - 1]), events[|events| - 1])
  }

  // ----- every reachable state -----

  /** Toggles alternate, starting with on; each comes no earlier than the 64-bit sum of the
      one before it and the setting read then. */
  ghost predicate Alternating(toggles: seq<Toggle>)
  {
    && (forall k :: 0 <= k < |toggles| ==> (toggles[k].ledOn <==> k % 2 == 0) && toggles[k].period >= 0)
    && forall k :: 0 < k < |toggles| ==>
         (toggles[k - 1].at + toggles[k - 1].period) % UINT64_SPAN <= toggles[k].at
  }

  ghost predicate Invariant(s: Demo)
  {
    && (s.automatic <==> s.controlling == None)
    && s.ledOnMs >= 0 && s.ledOffMs >= 0
    && Alternating(s.toggles)
    && (s.led <==> |s.toggles| % 2 == 1)
    && (s.toggles != [] ==>
          var last := s.toggles[|s.toggles| - 1]; s.nextToggle == (last.at + last.period) % UINT64_SPAN)
  }

  lemma StepKeepsInvariant(s: Demo, e: Event)
    requires Invariant(s)
    ensures Invariant(Step(s, e))
  {
    if e.Turn? && TogglesAt(s, e.now) {
      ToggleKeepsInvariant(s, e.now);
    }
  }

  lemma ToggleKeepsInvariant(s: Demo, now: UInt64)
    requires Invariant(s) && TogglesAt(s, now)
    ensures Invariant(Step(s, Turn(now)))
  {
    var toggle := Toggle(now, !s.led, if s.led then s.ledOffMs else s.ledOnMs);
    AlternatingSnoc(s.toggles, toggle);
    assert Step(s, Turn(now)).toggles == s.toggles + [toggle];
  }

  lemma AlternatingSnoc(toggles: seq<Toggle>, t: Toggle)
    requires Alternating(toggles) && t.period >= 0 && (t.ledOn <==> |toggles| % 2 == 0)
    requires toggles != [] ==>
      var last := toggles[|toggles| - 1]; (last.at + last.period) % UINT64_SPAN <= t.at
    ensures Alternating(toggles + [t])
  {
  }

  /** In every reachable state automatic mode means that no client controls, the settings are
      not negative, and the toggles made so far alternate at the chosen distances. */
  lemma {:induction false} RunKeepsInvariant(now: UInt64, events: seq<Event>)
    ensures Invariant(After(Initial(now), events))
  {
    if events != [] {
      RunKeepsInvariant(now, events[..|events| - 1]);
      StepKeepsInvariant(After(Initial(now), events[..|events| - 1]), events[|events| - 1]);
    }
  }

  /** What a toggle out of this state is timed by: the off setting from on, the on setting
      from off. */
  function SettingInForce(s: Demo): Int32
  {
    if s.led then s.ledOffMs else s.ledOnMs
  }

  /** The k-th toggle of a run happens at its event `i`: a turn in automatic mode that is due. */
  ghost predicate ToggleHappens(now: UInt64, events: seq<Event>, k: nat, i: nat)
  {
    && k < |After(Initial(now), events).toggles| && i < |events|
    && var s, t := After(Initial(now), events[..i]), After(Initial(now), events).toggles[k];
       && |s.toggles| == k && TogglesAt(s, t.at)
       && events[i] == Turn(t.at) && t.ledOn == !s.led && t.period == SettingInForce(s)
  }

  /** Every recorded toggle is a turn of the run, with the setting then in force. */
  lemma {:induction false} ToggleIsTurn(now: UInt64, events: seq<Event>, k: nat) returns (i: nat)
    requires k < |After(Initial(now), events).toggles|
    ensures ToggleHappens(now, events, k, i)
    decreases |events|
  {
    var n := |events| - 1;
    var front := events[..n];
    var s := After(Initial(now), front);
    if k < |s.toggles| {
      i := ToggleIsTurn(now, front, k);
      assert front[..i] == events[..i];
    } else {
      i := n;
    }
  }

  /** In any run, across control episodes and setting writes, two neighbouring toggles are
      turns that switch opposite ways; short of the 64-bit clock running over, the second comes
      no sooner after the first than the setting in force at the first. */
  lemma TogglesKeepTheirPeriod(now: UInt64, events: seq<Event>, k: nat) returns (i: nat, j: nat)
    requires 0 < k < |After(Initial(now), events).toggles|
    ensures ToggleHappens(now, events, k - 1, i) && ToggleHappens(now, events, k, j) && i < j
    ensures events[i].Turn? && events[j].Turn?
    ensures var first, second := After(Initial(now), events[..i]), After(Initial(now), events[..j]);
      && first.led != second.led
      && (events[i].now + SettingInForce(first)) % UINT64_SPAN <= events[j].now
      && (events[i].now + SettingInForce(first) < UINT64_SPAN ==>
            events[j].now - events[i].now >= SettingInForce(first) >= 0)
  {
    NeighboursAreApart(now, events, k);
    i := ToggleIsTurn(now, events, k - 1);
    j := ToggleIsTurn(now, events, k);
    if j <= i {
      TogglesGrow(now, events, j, i);
    }
  }

  lemma NeighboursAreApart(now: UInt64, events: seq<Event>, k: nat)
    requires 0 < k < |After(Initial(now), events).toggles|
    ensures var first, second := After(Initial(now), events).toggles[k - 1], After(Initial(now), events).toggles[k];
      && first.ledOn != second.ledOn && first.period >= 0
      && (first.at + first.period) % UINT64_SPAN <= second.at
      && (first.at + first.period < UINT64_SPAN ==> first.at + first.period <= second.at)
  {
    RunKeepsInvariant(now, events);
  }

  lemma {:induction false} TogglesGrow(now: UInt64, events: seq<Event>, i: nat, j: nat)
    requires i <= j <= |events|
    ensures After(Initial(now), events[..i]).toggles <= After(Initial(now), events[..j]).toggles
  {
    if i < j {
      TogglesGrow(now, events, i, j - 1);
      assert events[..j][..j - 1] == events[..j - 1];
    }
  }

  // ----- control ownership -----

  /** The k-th event of a run is an accepted control by `client`. */
  ghost predicate AcceptsAt(s: Demo, events: seq<Event>, k: nat, client: Client)
  {
    k < |events| && events[k].Check? && events[k].client == client
    && CheckAnswer(After(s, events[..k]), client, events[k].test) == Accepted
  }

  lemma {:induction false} HoldsUntilDisconnect(s: Demo, events: seq<Event>, i: nat, j: nat, client: Client)
    requires i <= j <= |events| && After(s, events[..i]).controlling == Some(client)
    requires forall k :: i <= k < j ==> events[k] != ConnectionChange(client, false)
    ensures After(s, events[..j]).controlling == Some(client)
  {
    if i < j {
      HoldsUntilDisconnect(s, events, i, j - 1, client);
      assert events[..j][..j - 1] == events[..j - 1];
    }
  }

  /** Between accepted controls of two clients the first has disconnected: control is never
      taken over. */
  lemma ControlIsReleasedByDisconnect(s: Demo, events: seq<Event>, i: nat, j: nat, first: Client, second: Client)
    requires i < j && first != second
    requires AcceptsAt(s, events, i, first) && AcceptsAt(s, events, j, second)
    ensures exists k :: i < k < j && events[k] == ConnectionChange(first, false)
  {
    if forall k :: i < k < j ==> events[k] != ConnectionChange(first, false) {
      assert events[..i + 1][..i] == events[..i];
      assert After(s, events[..i + 1]).controlling == Some(first);
      HoldsUntilDisconnect(s, events, i + 1, j, first);
    }
  }

  /** A test check is never accepted, yet on a free server it takes control: until its client
      disconnects nobody else is accepted and nothing toggles. */
  lemma TestCheckTakesControl(s: Demo, client: Client, later: seq<Event>, other: Client, test: bool, now: UInt64)
    requires Invariant(s) && s.controlling == None && other != client
    requires forall k :: 0 <= k < |later| ==> later[k] != ConnectionChange(client, false)
    ensures CheckAnswer(s, client, true) == TemporarilyUnavailable
    ensures var t := After(Step(s, Check(client, true)), later);
      && CheckAnswer(t, other, test) == TemporarilyUnavailable
      && Step(t, Turn(now)) == t
  {
    var taken := Step(s, Check(client, true));
    assert later[..0] == [] && later[..|later|] == later;
    HoldsUntilDisconnect(taken, later, 0, |later|, client);
    StepKeepsInvariant(s, Check(client, true));
    LaterKeepsInvariant(taken, later);
  }

  /** The run with its test checks taken out. */
  ghost function WithoutTests(events: seq<Event>): seq<Event>
  {
    if events == [] then []
    else
      var n := |events| - 1;
      WithoutTests(events[..n]) + if IsTest(events[n]) then [] else [events[n]]
  }

  predicate IsTest(e: Event)
  {
    e.Check? && e.test
  }

  /** Test checks leave no trace -- at every point of a run the server is as if they had not
      been made -- exactly when each of them meets a server that is already controlled. */
  lemma TestsLeaveNoTraceIff(s: Demo, events: seq<Event>)
    ensures (forall k :: 0 <= k <= |events| ==> NoTrace(s, events, k))
            <==> forall k :: 0 <= k < |events| && IsTest(events[k]) ==> After(s, events[..k]).controlling != None
  {
    if forall k :: 0 <= k < |events| && IsTest(events[k]) ==> After(s, events[..k]).controlling != None {
      forall k | 0 <= k <= |events| ensures NoTrace(s, events, k) {
        ControlledTests(s, events, k);
      }
    }
    if forall k :: 0 <= k <= |events| ==> NoTrace(s, events, k) {
      forall k | 0 <= k < |events| && IsTest(events[k]) ensures After(s, events[..k]).controlling != None {
        assert NoTrace(s, events, k) && NoTrace(s, events, k + 1);
        TestIsTaken(s, events, k);
      }
    }
  }

  lemma TestIsTaken(s: Demo, events: seq<Event>, k: nat)
    requires k < |events| && IsTest(events[k]) && NoTrace(s, events, k)
    ensures NoTrace(s, events, k + 1) ==> After(s, events[..k]).controlling != None
  {
    var upTo := events[..k + 1];
    assert upTo[..|upTo| - 1] == events[..k] && upTo[|upTo| - 1] == events[k];
    assert WithoutTests(upTo) == WithoutTests(events[..k]) + [] == WithoutTests(events[..k]);
    assert After(s, upTo) == Step(After(s, events[..k]), events[k]);
  }

  ghost predicate NoTrace(s: Demo, events: seq<Event>, k: nat)
    requires k <= |events|
  {
    After(s, events[..k]) == After(s, WithoutTests(events[..k]))
  }

  lemma {:induction false} ControlledTests(s: Demo, events: seq<Event>, k: nat)
    requires k <= |events|
    requires forall i :: 0 <= i < k && IsTest(events[i]) ==> After(s, events[..i]).controlling != None
    ensures NoTrace(s, events, k)
  {
    if k > 0 {
      ControlledTests(s, events, k - 1);
      assert events[..k][..k - 1] == events[..k - 1];
      var rest, e := WithoutTests(events[..k - 1]), events[k - 1];
      assert (rest + [e])[..|rest|] == rest;
      assert rest + [] == rest;
    }
  }

  lemma {:induction false} LaterKeepsInvariant(s: Demo, events: seq<Event>)
    requires Invariant(s)
    ensures Invariant(After(s, events))
  {
    if events != [] {
      LaterKeepsInvariant(s, events[..|events| - 1]);
      StepKeepsInvariant(After(s, events[..|events| - 1]), events[|events| - 1]);
    }
  }

  // ----- the operation counter -----

  predicate WritesOpCnt(e: Event)
  {
    e.Int32Control? && e.opCntRs && !e.test
  }

  /** Toggles to on in the stretch of the run from event `i` to event `j`. */
  ghost function RisingEdges(s: Demo, events: seq<Event>, i: nat, j: nat): nat
    requires i <= j <= |events|
  {
    if i == j then 0
    else RisingEdges(s, events, i, j - 1)
         + if !After(s, events[..j - 1]).led && After(s, events[..j]).led then 1 else 0
  }

  /** The counter is its last written value, or its initial one, plus the rising edges since,
      in 32-bit arithmetic. */
  lemma {:induction false} OpCntCountsEdges(s: Demo, events: seq<Event>, i: nat, j: nat)
    requires i <= j <= |events|
    requires forall k :: i <= k < j ==> !WritesOpCnt(events[k])
    ensures After(s, events[..j]).opCnt == WrapInt32(After(s, events[..i]).opCnt + RisingEdges(s, events, i, j))
  {
    if i == j {
      WrapIdentity(After(s, events[..i]).opCnt);
    } else {
      OpCntCountsEdges(s, events, i, j - 1);
      LastEdge(s, events, i, j, After(s, events[..i]).opCnt);
    }
  }

  lemma LastEdge(s: Demo, events: seq<Event>, i: nat, j: nat, start: Int32)
    requires i < j <= |events| && !WritesOpCnt(events[j - 1])
    requires After(s, events[..j - 1]).opCnt == WrapInt32(start + RisingEdges(s, events, i, j - 1))
    ensures After(s, events[..j]).opCnt == WrapInt32(start + RisingEdges(s, events, i, j))
  {
    StepOpCnt(s, events, j - 1, start + RisingEdges(s, events, i, j - 1));
  }

  lemma StepOpCnt(s: Demo, events: seq<Event>, k: nat, sum: int)
    requires k < |events| && !WritesOpCnt(events[k])
    requires After(s, events[..k]).opCnt == WrapInt32(sum)
    ensures var before, after := After(s, events[..k]), After(s, events[..k + 1]);
      after.opCnt == WrapInt32(sum + if !before.led && after.led then 1 else 0)
  {
    assert events[..k + 1][..k] == events[..k];
    EdgeCounts(After(s, events[..k]), events[k]);
    WrapNext(sum);
  }

  /** Barring overflow the counter is exactly that sum. */
  lemma OpCntExact(s: Demo, events: seq<Event>, i: nat, j: nat)
    requires i <= j <= |events|
    requires forall k :: i <= k < j ==> !WritesOpCnt(events[k])
    requires After(s, events[..i]).opCnt + RisingEdges(s, events, i, j) < INT32_LIMIT
    ensures After(s, events[..j]).opCnt == After(s, events[..i]).opCnt + RisingEdges(s, events, i, j)
  {
    OpCntCountsEdges(s, events, i, j);
    WrapIdentity(After(s, events[..i]).opCnt + RisingEdges(s, events, i, j));
  }

  lemma EdgeCounts(s: Demo, e: Event)
    requires !WritesOpCnt(e)
    ensures Step(s, e).opCnt == if !s.led && Step(s, e).led then WrapInt32(s.opCnt + 1) else s.opCnt
  {
  }

  lemma WrapIdentity(x: int)
    ensures -INT32_LIMIT <= x < INT32_LIMIT ==> WrapInt32(x) == x
  {
  }

  lemma WrapNext(x: int)
    ensures WrapInt32(WrapInt32(x) + 1) == WrapInt32(x + 1)
  {
  }

  lemma WriteSetsOpCnt(s: Demo, events: seq<Event>, k: nat)
    requires k < |events| && WritesOpCnt(events[k])
    ensures After(s, events[..k + 1]).opCnt == events[k].value
  {
    assert events[..k + 1][..k] == events[..k];
  }

  // ----- the server's globals and handlers -----

  class Server {
    var controllingClient: Option<Client>
    var automaticOperationMode: bool
    var ledOnTimeMs: Int32
    var ledOffTimeMs: Int32
    var opCnt: Int32
    var ledStateValue: bool
    var nextLedToggleTime: UInt64
    ghost var toggles: seq<Toggle>

    ghost function State(): Demo
      reads this
    {
      Demo(controllingClient, automaticOperationMode, ledOnTimeMs, ledOffTimeMs, opCnt, ledStateValue,
           nextLedToggleTime, toggles)
    }

    constructor (now: UInt64)
      ensures State() == Initial(now)
    {
      controllingClient, automaticOperationMode := None, true;
      ledOnTimeMs, ledOffTimeMs, opCnt := 1000, 1000, 0;
      ledStateValue, nextLedToggleTime, toggles := false, (now + 1000) % UINT64_SPAN, [];
    }

    method ConnectionIndication(client: Client, connected: bool)
      modifies this
      ensures State() == Step(old(State()), ConnectionChange(client, connected))
      ensures !connected && old(controllingClient) == Some(client) ==>
        controllingClient == None && automaticOperationMode
    {
      if !connected {
        if controllingClient == Some(client) {
          controllingClient := None;
          automaticOperationMode := true;
        }
      }
    }

    method PerformCheck(client: Client, test: bool) returns (result: CheckResult)
      modifies this
      ensures State() == Step(old(State()), Check(client, test))
      ensures result == CheckAnswer(old(State()), client, test)
    {
      if controllingClient == None {
        controllingClient := Some(client);
        automaticOperationMode := false;
      }
      if test {
        return TemporarilyUnavailable;
      }
      return if controllingClient == Some(client) then Accepted else TemporarilyUnavailable;
    }

    method ControlInt32(opCntRs: bool, value: Int32, test: bool)
      modifies this
      ensures State() == Step(old(State()), Int32Control(opCntRs, value, test))
    {
      if test {
        return;
      }
      if opCntRs {
        opCnt := value;
      }
    }

    method WriteAccess(attribute: Attribute, value: Int32) returns (result: WriteResult)
      modifies this
      ensures State() == Step(old(State()), WriteSetting(attribute, value))
      ensures result == WriteAnswer(attribute, value)
      ensures result == ValueInvalid <==> value < 0
      ensures result == WriteOk <==> value >= 0 && attribute != OtherAttribute
    {
      if value < 0 {
        return ValueInvalid;
      }
      if attribute == OpDlTmms {
        ledOffTimeMs := value;
        return WriteOk;
      }
      if attribute == RsDlTmms {
        ledOnTimeMs := value;
        return WriteOk;
      }
      return AccessDenied;
    }

    /** The toggle part of one turn of the service loop. */
    method ServiceTurn(now: UInt64)
      modifies this
      ensures State() == Step(old(State()), Turn(now))
    {
      if automaticOperationMode {
        if nextLedToggleTime <= now {
          ghost var period := if ledStateValue then ledOffTimeMs else ledOnTimeMs;
          if ledStateValue {
            nextLedToggleTime := (now + ledOffTimeMs) % UINT64_SPAN;
          } else {
            nextLedToggleTime := (now + ledOnTimeMs) % UINT64_SPAN;
          }
          ledStateValue := !ledStateValue;
          if ledStateValue {
            opCnt := WrapInt32(opCnt + 1);
          }
          toggles := toggles + [Toggle(now, ledStateValue, period)];
        }
      }
    }
  }
}
