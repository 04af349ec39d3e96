/** The session loop and the reconnect loop around it (src/main.rs lines
    46, 56-162).

    Each iteration of the session loop reads the ADC (retrying until a read
    succeeds), waits, advances the debounce counter, builds the gated
    notification, and hands it to `srv.do_work_with_notification`. The loop
    ends only when that call reports `GotDisconnected`; the reconnect loop
    then builds a fresh BLE stack, GATT table and attribute server and starts
    the next session. `debounce_cnt` is declared before the reconnect loop, so
    it is the one piece of state that carries over from session to session.

    The hardware and the BLE stack are inputs: every iteration is described
    by a `Tick` holding the ADC attempts, the two pin samples, the CCCD
    lookup answer and the outcome of the attribute server's work call. */
module Firmware {
  import opened Wrappers
  import opened Debounce
  import opened Adc
  import opened Notify

  /** `bleps::attribute_server::WorkResult`. */
  datatype WorkResult = DidWork | GotDisconnected

  /** What `srv.do_work_with_notification` returns; the error's contents are
      only logged. */
  datatype WorkOutcome = Ok(result: WorkResult) | Err

  datatype Control = Continue | Exit

  /** The dispatch on the work call's result (lines 151-161): only a
      disconnect leaves the session loop; errors are logged and ignored. */
  function Dispatch(w: WorkOutcome): (c: Control)
    ensures c == Exit <==> w == Ok(GotDisconnected)
    ensures w.Err? ==> c == Continue
  {
    match w
    case Ok(GotDisconnected) => Exit
    case Ok(DidWork) => Continue
    case Err => Continue
  }

  /** Everything the outside world decides in one iteration. */
  datatype Tick = Tick(adc: seq<Attempt>, pin: Reads, cccd: Option<CccdRead>, work: WorkOutcome)

  /** The state that outlives an iteration: `debounce_cnt`, and the number
      of sessions started so far. Nothing of the attribute server — in
      particular no subscription state — is kept: it is rebuilt per session. */
  datatype Device = Device(counter: int, sessions: nat)

  /** At power-on the counter is 500 and the first session is starting. */
  const PowerOn: Device := Device(Threshold, 1)

  /** What one completed iteration produced. */
  datatype Iteration = Iteration(reading: u16, sent: Option<Notification>, next: Device)

  /** One iteration of the session loop. `None` means the ADC never
      delivered within the attempts given, so the firmware is still spinning
      in the retry loop and the iteration never completes. */
  function Iterate(d: Device, t: Tick): (r: Option<Iteration>)
    ensures r.None? <==> forall j :: 0 <= j < |t.adc| ==> t.adc[j].Failed?
    ensures r.Some? ==> Some(r.value.reading) == FirstOk(t.adc)
    ensures r.Some? ==> (r.value.sent.Some? <==> t.pin.atCheck == Low && d.counter == 1 && t.cccd == Some(Subscribed))
    ensures r.Some? && r.value.sent.Some? ==> r.value.sent.value == Alert
    ensures r.Some? ==> r.value.next.counter == Step(d.counter, t.pin).counter
    ensures r.Some? ==> r.value.next.sessions == if t.work == Ok(GotDisconnected) then d.sessions + 1 else d.sessions
  {
    match FirstOk(t.adc)
    case None => None
    case Some(v) =>
      var s := Step(d.counter, t.pin);
      var sent := Gate(s.fired, t.cccd);
      var sessions := if Dispatch(t.work) == Exit then d.sessions + 1 else d.sessions;
      Some(Iteration(v, sent, Device(s.counter, sessions)))
  }

  /** The observable record of a run: the final state, the ADC reading and
      the notification (if any) of every completed iteration, and whether
      the run got stuck in the ADC retry loop. */
  datatype History = History(device: Device, readings: seq<u16>, sent: seq<Option<Notification>>, stalled: bool)

  /** Runs the firmware over `ticks`, across as many sessions as the work
      results dictate. Once stuck in the ADC retry loop, later ticks are never
      reached. */
  function Process(d0: Device, ticks: seq<Tick>): (h: History)
    ensures |h.readings| == |h.sent| <= |ticks|
    ensures h.stalled <==> |h.sent| < |ticks|
    ensures forall i :: 0 <= i < |h.sent| ==> h.sent[i] == None || h.sent[i] == Some(Alert)
    decreases |ticks|
  {
    if ticks == [] then History(d0, [], [], false)
    else
      var h := Process(d0, ticks[..|ticks| - 1]);
      if h.stalled then h
      else match Iterate(h.device, ticks[|ticks| - 1])
        case None => h.(stalled := true)
        case Some(it) => History(it.next, h.readings + [it.reading], h.sent + [it.sent], false)
  }

  /** The pin samples of a run. */
  function Pins(ticks: seq<Tick>): (ps: seq<Reads>)
    ensures |ps| == |ticks|
    ensures forall i :: 0 <= i < |ticks| ==> ps[i] == ticks[i].pin
  {
    seq(|ticks|, i requires 0 <= i < |ticks| => ticks[i].pin)
  }

  /** The number of work calls in `ticks` that reported a disconnect. */
  function Disconnects(ticks: seq<Tick>): nat
    decreases |ticks|
  {
    if ticks == [] then 0
    else Disconnects(ticks[..|ticks| - 1]) + if ticks[|ticks| - 1].work == Ok(GotDisconnected) then 1 else 0
  }

  /** Extending a run that is not stuck by one tick performs one iteration. */
  lemma ProcessSnoc(d0: Device, init: seq<Tick>, last: Tick)
    requires !Process(d0, init).stalled
    ensures var h := Process(d0, init);
      Process(d0, init + [last]) ==
        match Iterate(h.device, last)
        case None => h.(stalled := true)
        case Some(it) => History(it.next, h.readings + [it.reading], h.sent + [it.sent], false)
  {
    assert (init + [last])[..|init|] == init;
  }

  /** How a call of the session loop came to an end. */
  datatype SessionEnd =
    | Disconnected  // the work call reported `GotDisconnected`
    | Stalled       // stuck in the ADC retry loop on tick `consumed`
    | OutOfInput    // every tick given was consumed without a disconnect

  /** The inner `loop` of the firmware: one session, from the first tick
      after the attribute server was built up to and including the tick whose
      work call reported the disconnect. */
  method RunSession(d0: Device, ticks: seq<Tick>)
    returns (d: Device, readings: seq<u16>, sent: seq<Option<Notification>>, consumed: nat, end: SessionEnd)
    ensures consumed <= |ticks|
    // The loop's effect is that of `Process` on the ticks it consumed.
    ensures Process(d0, ticks[..consumed]) == History(d, readings, sent, false)
    // It leaves exactly at the first disconnect, and for no other reason but a dead ADC or the end of input.
    ensures end == Disconnected <==> 0 < consumed && ticks[consumed - 1].work == Ok(GotDisconnected)
    ensures forall i :: 0 <= i < consumed - 1 ==> ticks[i].work != Ok(GotDisconnected)
    ensures end == OutOfInput ==> consumed == |ticks|
    ensures end == Stalled ==> consumed < |ticks| && FirstOk(ticks[consumed].adc).None?
    ensures end == Stalled ==> Iterate(d, ticks[consumed]).None?
    ensures d.sessions == if end == Disconnected then d0.sessions + 1 else d0.sessions
  {
    d, readings, sent, consumed := d0, [], [], 0;
    while consumed < |ticks|
      invariant consumed <= |ticks|
      invariant Process(d0, ticks[..consumed]) == History(d, readings, sent, false)
      invariant d.sessions == d0.sessions
      invariant forall i :: 0 <= i < consumed ==> ticks[i].work != Ok(GotDisconnected)
    {
      var t := ticks[consumed];
      assert ticks[..consumed + 1] == ticks[..consumed] + [t];
      ProcessSnoc(d0, ticks[..consumed], t);
      match Iterate(d, t)
      case None =>
        end := Stalled;
        return;
      case Some(it) =>
        readings, sent, d := readings + [it.reading], sent + [it.sent], it.next;
        consumed := consumed + 1;
        if Dispatch(t.work) == Exit {
          end := Disconnected;
          return;
        }
    }
    end := OutOfInput;
  }
}
