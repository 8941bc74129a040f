/** The demo server's behaviour told from the events alone: who controls, which checks are
    accepted, which turns toggle, which settings are in force. */
module BeagleHistory {
  import opened Wrappers
  import opened BeagleControl

  // ----- control -----

  ghost predicate Disconnected(events: seq<Event>, client: Client, from: nat, to: nat)
  {
    exists k :: from < k < to && k < |events| && events[k] == ConnectionChange(client, false)
  }

  /** The i-th event is a check that finds nobody in control: whoever took control before has
      disconnected since. */
  ghost predicate Takes(events: seq<Event>, i: nat)
    decreases i
  {
    && i < |events| && events[i].Check?
    && forall j: nat | j < i :: Takes(events, j) ==> Disconnected(events, events[j].client, j, i)
  }

  /** Control taken by the i-th event lasts through the first `n` events. */
  ghost predicate Holds(events: seq<Event>, i: nat, n: nat)
  {
    i < n && Takes(events, i) && !Disconnected(events, events[i].client, i, n)
  }

  ghost predicate Free(events: seq<Event>, n: nat)
  {
    forall i: nat | i < n :: !Holds(events, i, n)
  }

  ghost predicate ControlIs(events: seq<Event>, n: nat, controlling: Option<Client>)
  {
    && (controlling == None <==> Free(events, n))
    && forall i: nat | i < n :: Holds(events, i, n) ==> controlling == Some(events[i].client)
  }

  /** In every run the controlling client is the one whose check found the server free and who
      has not disconnected since. */
  lemma {:induction false} ControlIsHistory(start: UInt64, events: seq<Event>, n: nat)
    requires n <= |events|
    ensures ControlIs(events, n, After(Initial(start), events[..n]).controlling)
  {
    if n > 0 {
      ControlIsHistory(start, events, n - 1);
      assert events[..n][..n - 1] == events[..n - 1];
      ControlStep(events, n, After(Initial(start), events[..n - 1]));
    }
  }

  lemma ControlStep(events: seq<Event>, n: nat, s: Demo)
    requires 0 < n <= |events| && ControlIs(events, n - 1, s.controlling)
    ensures ControlIs(events, n, Step(s, events[n - 1]).controlling)
  {
    var e := events[n - 1];
    forall i: nat | i < n - 1
      ensures Holds(events, i, n)
              <==> Holds(events, i, n - 1) && e != ConnectionChange(events[i].client, false)
    {
      if Takes(events, i) {
        DisconnectedNext(events, events[i].client, i, n);
      }
    }
    TakesIffFree(events, n - 1);
    assert Holds(events, n - 1, n) <==> Takes(events, n - 1);
    if s.controlling.Some? {
      var i: nat :| i < n - 1 && Holds(events, i, n - 1);
      assert Holds(events, i, n) <==> e != ConnectionChange(events[i].client, false);
    }
  }

  lemma TakesIffFree(events: seq<Event>, i: nat)
    requires i < |events|
    ensures Takes(events, i) <==> events[i].Check? && Free(events, i)
  {
    assert forall j: nat | j < i ::
      (Holds(events, j, i) <==> Takes(events, j) && !Disconnected(events, events[j].client, j, i));
  }

  lemma DisconnectedNext(events: seq<Event>, client: Client, from: nat, to: nat)
    requires from + 1 < to <= |events|
    ensures Disconnected(events, client, from, to)
            <==> Disconnected(events, client, from, to - 1) || events[to - 1] == ConnectionChange(client, false)
  {
  }

  /** A check is accepted exactly when it is no test and either the server is free or control
      was taken by the same client. */
  lemma CheckAcceptedIff(start: UInt64, events: seq<Event>, k: nat)
    requires k < |events| && events[k].Check?
    ensures CheckAnswer(After(Initial(start), events[..k]), events[k].client, events[k].test) == Accepted
            <==> !events[k].test
                 && forall i: nat | i < k :: Holds(events, i, k) ==> events[i].client == events[k].client
  {
    ControlIsHistory(start, events, k);
  }

  /** Once the client in control has disconnected, and until the next check, the server is free:
      any client's next check that is no test is accepted, and a turn that is due toggles. */
  lemma DisconnectReleases(start: UInt64, events: seq<Event>, k: nat, n: nat, client: Client, now: UInt64)
    requires k < n <= |events| && events[k] == ConnectionChange(client, false)
    requires forall i :: 0 <= i < k && Holds(events, i, k) ==> events[i].client == client
    requires forall i :: k < i < n ==> !events[i].Check?
    ensures Free(events, n)
    ensures CheckAnswer(After(Initial(start), events[..n]), client, false) == Accepted
    ensures forall other: Client :: CheckAnswer(After(Initial(start), events[..n]), other, false) == Accepted
    ensures var s := After(Initial(start), events[..n]);
      NextToggle(start, s.toggles) <= now ==> Step(s, Turn(now)).led != s.led
  {
    forall i: nat | i < n ensures !Holds(events, i, n) {
      if Takes(events, i) && i < k {
        if Disconnected(events, events[i].client, i, k) {
          var m :| i < m < k && events[m] == ConnectionChange(events[i].client, false);
        } else {
          assert Holds(events, i, k);
          assert i < k < n && events[k] == ConnectionChange(events[i].client, false);
        }
      }
    }
    ControlIsHistory(start, events, n);
    NextToggleIsHistory(start, events[..n]);
    RunKeepsInvariant(start, events[..n]);
  }

  /** A connection that opens, or that closes without its client being in control, changes
      nothing at all. */
  lemma OtherConnectionsIgnored(start: UInt64, events: seq<Event>, k: nat)
    requires k < |events| && events[k].ConnectionChange?
    requires events[k].connected
             || forall i :: 0 <= i < k && Holds(events, i, k) ==> events[i].client != events[k].client
    ensures After(Initial(start), events[..k + 1]) == After(Initial(start), events[..k])
  {
    assert events[..k + 1][..k] == events[..k];
    ControlIsHistory(start, events, k);
  }

  // ----- settings -----

  /** The w-th event is the last write of a value that is not negative to the attribute. */
  ghost predicate LastSetting(events: seq<Event>, attribute: Attribute, w: nat)
  {
    && w < |events| && SetsTo(events[w], attribute)
    && forall k :: w < k < |events| ==> !SetsTo(events[k], attribute)
  }

  ghost predicate SetsTo(e: Event, attribute: Attribute)
  {
    e.WriteSetting? && e.attribute == attribute && e.value >= 0
  }

  /** The value of an attribute: the last one written, or `default` when there was none. */
  ghost predicate IsSetting(events: seq<Event>, attribute: Attribute, default: int, value: int)
  {
    || (value == default && forall k :: 0 <= k < |events| ==> !SetsTo(events[k], attribute))
    || exists w: nat :: LastSetting(events, attribute, w) && value == events[w].value
  }

  /** In every run the off time is the last valid write of OpDlTmms and the on time that of
      RsDlTmms; both are one second at first. */
  lemma {:induction false} SettingsAreLastWrites(start: UInt64, events: seq<Event>)
    ensures IsSetting(events, OpDlTmms, 1000, After(Initial(start), events).ledOffMs)
    ensures IsSetting(events, RsDlTmms, 1000, After(Initial(start), events).ledOnMs)
  {
    if events != [] {
      var n := |events| - 1;
      SettingsAreLastWrites(start, events[..n]);
      var s := After(Initial(start), events[..n]);
      SettingNext(events, OpDlTmms, 1000, s.ledOffMs);
      SettingNext(events, RsDlTmms, 1000, s.ledOnMs);
    }
  }

  lemma SettingNext(events: seq<Event>, attribute: Attribute, default: int, value: int)
    requires events != [] && IsSetting(events[..|events| - 1], attribute, default, value)
    ensures var e := events[|events| - 1];
      IsSetting(events, attribute, default, if SetsTo(e, attribute) then e.value else value)
  {
    var n := |events| - 1;
    if SetsTo(events[n], attribute) {
      assert LastSetting(events, attribute, n);
    } else if w: nat :| LastSetting(events[..n], attribute, w) && value == events[..n][w].value {
      assert LastSetting(events, attribute, w);
    }
  }

  // ----- toggling -----

  /** When the next toggle is due: a second after the start, later the period chosen at the
      last toggle after it, in 64-bit arithmetic. */
  function NextToggle(start: UInt64, toggles: seq<Toggle>): int
  {
    if toggles == [] then (start + 1000) % UINT64_SPAN
    else var last := toggles[|toggles| - 1]; (last.at + last.period) % UINT64_SPAN
  }

  lemma {:induction false} NextToggleIsHistory(start: UInt64, events: seq<Event>)
    ensures After(Initial(start), events).nextToggle == NextToggle(start, After(Initial(start), events).toggles)
  {
    if events != [] {
      NextToggleIsHistory(start, events[..|events| - 1]);
    }
  }

  /** In every run the LEDs switch at exactly those turns that find the server free and the
      next toggle due; such a toggle is recorded with its time and the period read for the
      next one. */
  lemma TogglesExactlyWhenDue(start: UInt64, events: seq<Event>, k: nat)
    requires k < |events|
    ensures var s, t := After(Initial(start), events[..k]), After(Initial(start), events[..k + 1]);
      && (t.led != s.led
          <==> events[k].Turn? && Free(events, k) && NextToggle(start, s.toggles) <= events[k].now)
      && (t.led != s.led ==>
            t.toggles == s.toggles + [Toggle(events[k].now, t.led, if t.led then s.ledOnMs else s.ledOffMs)])
      && (t.led == s.led ==> t.toggles == s.toggles)
  {
    assert events[..k + 1][..k] == events[..k];
    ControlIsHistory(start, events, k);
    NextToggleIsHistory(start, events[..k]);
    RunKeepsInvariant(start, events[..k]);
  }

  // ----- the operation counter -----

  /** While nobody writes the counter it counts, from zero, the times the LEDs came on. */
  lemma OpCntFromStart(start: UInt64, events: seq<Event>)
    requires forall k :: 0 <= k < |events| ==> !(events[k].Int32Control? && events[k].opCntRs && !events[k].test)
    ensures After(Initial(start), events).opCnt
            == WrapInt32(RisingEdges(Initial(start), events, 0, |events|))
  {
    var s, n := Initial(start), |events|;
    assert events[..0] == [] && After(s, events[..0]) == s;
    assert forall k :: 0 <= k < n ==> !WritesOpCnt(events[k]);
    OpCntCountsEdges(s, events, 0, n);
    assert events[..n] == events;
  }
}
