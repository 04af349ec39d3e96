/** Properties of whole firmware runs, across reconnects. */
module FirmwareProperties {
  import opened Wrappers
  import opened Debounce
  import opened Adc
  import opened Notify
  import opened Firmware
  import DebounceTraces

  /** `h` is what one debounce machine, started from `d0`'s counter and fed
      the pin samples of the iterations `h` completed, would show: the same
      counter, and a notification exactly where the machine fired and the
      CCCD lookup answered "subscribed". */
  ghost predicate FollowsDebounce(d0: Device, ticks: seq<Tick>, h: History) {
    && |h.sent| <= |ticks|
    && h.device.counter == Run(d0.counter, Pins(ticks[..|h.sent|])).counter
    && forall i :: 0 <= i < |h.sent| ==>
      (h.sent[i].Some? <==> Run(d0.counter, Pins(ticks[..|h.sent|])).fired[i] && ticks[i].cccd == Some(Subscribed))
  }

  /** Whether `h` follows the debounce machine only depends on the ticks it consumed. */
  lemma FollowsDebounceOnPrefix(d0: Device, a: seq<Tick>, b: seq<Tick>, h: History)
    requires |h.sent| <= |a| && |h.sent| <= |b| && a[..|h.sent|] == b[..|h.sent|]
    requires FollowsDebounce(d0, a, h)
    ensures FollowsDebounce(d0, b, h)
  {
    forall i | 0 <= i < |h.sent|
      ensures a[i] == b[i]
    {
      assert a[..|h.sent|][i] == b[..|h.sent|][i];
    }
  }

  /** The debounce counter is never reset by a reconnect: over any run, the
      counter and the notifications are those of one debounce machine fed
      with every pin sample of every session, started from the run's initial
      counter. A notification goes out exactly when that machine fires and
      the current session's CCCD lookup answers "subscribed". */
  lemma {:induction false} ProcessFollowsDebounce(d0: Device, ticks: seq<Tick>)
    ensures var h := Process(d0, ticks);
      h.device.counter == Run(d0.counter, Pins(ticks[..|h.sent|])).counter
    ensures var h := Process(d0, ticks);
      forall i :: 0 <= i < |h.sent| ==>
        (h.sent[i].Some? <==> Run(d0.counter, Pins(ticks[..|h.sent|])).fired[i] && ticks[i].cccd == Some(Subscribed))
  {
    ProcessFollowsDebounceStep(d0, ticks);
  }

  lemma {:induction false} ProcessFollowsDebounceStep(d0: Device, ticks: seq<Tick>)
    ensures FollowsDebounce(d0, ticks, Process(d0, ticks))
    decreases |ticks|
  {
    if ticks != [] {
      var init := ticks[..|ticks| - 1];
      var hi := Process(d0, init);
      ProcessFollowsDebounceStep(d0, init);
      if hi.stalled {
        FollowsDebounceOnPrefix(d0, init, ticks, hi);
      } else if Iterate(hi.device, ticks[|ticks| - 1]).None? {
        FollowsDebounceOnPrefix(d0, init, ticks, hi);
        assert Process(d0, ticks) == hi.(stalled := true);
      } else {
        assert ticks == init + [ticks[|ticks| - 1]];
        FollowsOneMoreTick(d0, init, ticks[|ticks| - 1]);
      }
    }
  }

  /** The inductive step: a completed iteration performs exactly one
      debounce step. */
  lemma FollowsOneMoreTick(d0: Device, init: seq<Tick>, last: Tick)
    requires !Process(d0, init).stalled
    requires FollowsDebounce(d0, init, Process(d0, init))
    requires Iterate(Process(d0, init).device, last).Some?
    ensures FollowsDebounce(d0, init + [last], Process(d0, init + [last]))
  {
    var hi := Process(d0, init);
    assert init[..|hi.sent|] == init;
    var it := Iterate(hi.device, last).value;
    ProcessSnoc(d0, init, last);
    var h := Process(d0, init + [last]);
    assert (init + [last])[..|h.sent|] == init + [last];
    PinsSnoc(init, last);
    var before := Run(d0.counter, Pins(init));
    var s := Step(before.counter, last.pin);
    DebounceTraces.RunSnoc(d0.counter, Pins(init), last.pin);
    assert it.sent.Some? <==> s.fired && last.cccd == Some(Subscribed);
    GatedSnoc(hi.sent, before.fired, init, it.sent, s.fired, last);
  }

  lemma PinsSnoc(init: seq<Tick>, last: Tick)
    ensures Pins(init + [last]) == Pins(init) + [last.pin]
  {
  }

  /** Appending one gated iteration keeps "sent exactly when fired and subscribed". */
  lemma GatedSnoc(sent: seq<Option<Notification>>, fired: seq<bool>, ticks: seq<Tick>,
                  x: Option<Notification>, f: bool, t: Tick)
    requires |sent| == |fired| == |ticks|
    requires forall i :: 0 <= i < |sent| ==> (sent[i].Some? <==> fired[i] && ticks[i].cccd == Some(Subscribed))
    requires x.Some? <==> f && t.cccd == Some(Subscribed)
    ensures forall i :: 0 <= i < |sent| + 1 ==>
      ((sent + [x])[i].Some? <==> (fired + [f])[i] && (ticks + [t])[i].cccd == Some(Subscribed))
  {
  }

  /** A new session starts once per disconnect and for no other reason:
      `DidWork` and errors from the work call never end a session. */
  lemma {:induction false} SessionsCountDisconnects(d0: Device, ticks: seq<Tick>)
    ensures var h := Process(d0, ticks);
      h.device.sessions == d0.sessions + Disconnects(ticks[..|h.sent|])
    decreases |ticks|
  {
    if ticks != [] {
      var init := ticks[..|ticks| - 1];
      var hi := Process(d0, init);
      SessionsCountDisconnects(d0, init);
      var h := Process(d0, ticks);
      if hi.stalled {
        assert ticks[..|h.sent|] == init[..|h.sent|];
      } else if Iterate(hi.device, ticks[|ticks| - 1]).None? {
        assert ticks[..|h.sent|] == init;
        assert init[..|hi.sent|] == init;
      } else {
        assert ticks[..|h.sent|] == ticks;
        assert init[..|hi.sent|] == init;
      }
    }
  }

  /** Every completed iteration used the first successful ADC reading of its
      tick, however many failed reads came before it; a run stops completing
      iterations only at a tick whose every ADC read failed. */
  lemma {:induction false} ReadingsAreFirstOk(d0: Device, ticks: seq<Tick>)
    ensures var h := Process(d0, ticks);
      forall i :: 0 <= i < |h.readings| ==> FirstOk(ticks[i].adc) == Some(h.readings[i])
    ensures var h := Process(d0, ticks);
      h.stalled ==> forall j :: 0 <= j < |ticks[|h.sent|].adc| ==> ticks[|h.sent|].adc[j].Failed?
    decreases |ticks|
  {
    if ticks != [] {
      ReadingsAreFirstOk(d0, ticks[..|ticks| - 1]);
    }
  }

  /** Only the debounce counter carries over between iterations and sessions:
      two runs whose initial counters agree produce the same readings, the
      same notifications and the same counter, whatever their session count. */
  lemma {:induction false} OnlyCounterCarriesOver(d1: Device, d2: Device, ticks: seq<Tick>)
    requires d1.counter == d2.counter
    ensures Process(d1, ticks).sent == Process(d2, ticks).sent
    ensures Process(d1, ticks).readings == Process(d2, ticks).readings
    ensures Process(d1, ticks).stalled == Process(d2, ticks).stalled
    ensures Process(d1, ticks).device.counter == Process(d2, ticks).device.counter
    decreases |ticks|
  {
    if ticks != [] {
      OnlyCounterCarriesOver(d1, d2, ticks[..|ticks| - 1]);
    }
  }

  /** End to end, from power-on and with the pin steady within each
      iteration: the firmware sends its notification exactly in the
      iterations where the button has been held for exactly 500 consecutive
      samples and the peer of the current session is subscribed — also when
      the hold began in an earlier session. */
  lemma NotifiesExactlyAtFullHold(ticks: seq<Tick>, ls: seq<Level>)
    requires |ls| == |ticks|
    requires forall i :: 0 <= i < |ticks| ==> ticks[i].pin == Steady(ls[i])
    ensures var h := Process(PowerOn, ticks);
      forall i :: 0 <= i < |h.sent| ==>
        (h.sent[i] == Some(Alert) <==> TrailingLows(ls[..i + 1]) == Threshold && ticks[i].cccd == Some(Subscribed))
  {
    var h := Process(PowerOn, ticks);
    var n := |h.sent|;
    ProcessFollowsDebounce(PowerOn, ticks);
    assert Pins(ticks[..n]) == Steadily(ls[..n]);
    forall i | 0 <= i < n
      ensures h.sent[i] == Some(Alert) <==> TrailingLows(ls[..i + 1]) == Threshold && ticks[i].cccd == Some(Subscribed)
    {
      DebounceTraces.FiresExactlyAtThreshold(ls[..n], i);
      assert ls[..n][..i + 1] == ls[..i + 1];
    }
  }

  /** Tick `i` is the first iteration of a session: the first tick of the
      run, or the tick right after a disconnect. */
  predicate SessionStart(ticks: seq<Tick>, i: nat)
    requires i < |ticks|
  {
    i == 0 || ticks[i - 1].work == Ok(GotDisconnected)
  }

  /** The attribute server is rebuilt for every session (src/main.rs lines
      83-106) and its first CCCD lookup runs before any work call of that
      session, so no peer of that session can have subscribed yet: the
      lookup in a session's first iteration does not answer "subscribed". */
  predicate FreshSubscriptions(ticks: seq<Tick>) {
    forall i :: 0 <= i < |ticks| && SessionStart(ticks, i) ==> ticks[i].cccd != Some(Subscribed)
  }

  /** With subscriptions fresh per session, no session notifies in its first
      iteration, even when the debounce fires there (for instance on a hold
      that began in the previous session). */
  lemma {:induction false} FirstIterationNeverNotifies(d0: Device, ticks: seq<Tick>)
    requires FreshSubscriptions(ticks)
    ensures var h := Process(d0, ticks);
      forall i :: 0 <= i < |h.sent| && SessionStart(ticks, i) ==> h.sent[i] == None
  {
    ProcessFollowsDebounce(d0, ticks);
  }
}
