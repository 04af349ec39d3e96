/** The long-press detector of the session loop (src/main.rs lines 46, 127-149).

    `debounce_cnt` starts at 500. In every loop iteration the button pin is
    sampled twice: once by `is_low()` before the decrement, once by `is_high()`
    before the reset. While the first sample is low and the counter is positive
    the counter is decremented, and the decrement that reaches zero is the only
    point where a notification may be built. Whenever the second sample is high
    the counter goes back to 500. */
module Debounce {

  /** The initial and reset value of `debounce_cnt`. */
  const Threshold: int := 500

  datatype Level = Low | High

  /** The two pin samples of one iteration: `atCheck` is what `is_low()` saw,
      `atReset` is what `is_high()` saw a moment later. */
  datatype Reads = Reads(atCheck: Level, atReset: Level)

  /** Both samples of an iteration agree: the pin did not change in between. */
  function Steady(l: Level): (p: Reads)
    ensures p.atCheck == l && p.atReset == l
  {
    Reads(l, l)
  }

  predicate InRange(c: int) {
    0 <= c <= Threshold
  }

  /** The counter after an iteration, and whether that iteration was the
      one-shot firing point. */
  datatype Stepped = Stepped(counter: int, fired: bool)

  /** One iteration of the debounce update. */
  function Step(c: int, p: Reads): (r: Stepped)
    // The counter never leaves 0..=500, so the `i32` never wraps.
    ensures InRange(c) ==> InRange(r.counter)
    // Firing happens exactly on the decrement from 1 to 0 while the pin is low.
    ensures r.fired <==> p.atCheck == Low && c == 1
    ensures r.fired && p.atReset == Low ==> r.counter == 0
    // A high sample at the reset point restores the threshold, whatever the counter was.
    ensures p.atReset == High ==> r.counter == Threshold
    // Without a reset the counter only moves down, by one, and only from a positive value on a low sample.
    ensures p.atReset == Low ==> r.counter == c || (p.atCheck == Low && c > 0 && r.counter == c - 1)
    ensures p.atReset == Low && p.atCheck == Low && c > 0 ==> r.counter == c - 1
    ensures p.atReset == Low && (p.atCheck == High || c <= 0) ==> r.counter == c
  {
    var afterCheck :=
      if p.atCheck == Low && c > 0 then Stepped(c - 1, c - 1 == 0)
      else Stepped(c, false);
    if p.atReset == High then Stepped(Threshold, afterCheck.fired) else afterCheck
  }

  /** The counter after a whole sequence of iterations, and for each iteration
      whether it fired. */
  datatype Trace = Trace(counter: int, fired: seq<bool>)

  /** Runs the update over `ps` starting from counter `c0`. */
  function Run(c0: int, ps: seq<Reads>): (t: Trace)
    ensures |t.fired| == |ps|
    ensures InRange(c0) ==> InRange(t.counter)
    decreases |ps|
  {
    if ps == [] then Trace(c0, [])
    else
      var before := Run(c0, ps[..|ps| - 1]);
      var s := Step(before.counter, ps[|ps| - 1]);
      Trace(s.counter, before.fired + [s.fired])
  }

  /** Iterations in which both pin samples saw `ls[i]`. */
  function Steadily(ls: seq<Level>): (ps: seq<Reads>)
    ensures |ps| == |ls|
    ensures forall i :: 0 <= i < |ls| ==> ps[i] == Steady(ls[i])
  {
    seq(|ls|, i requires 0 <= i < |ls| => Steady(ls[i]))
  }

  /** `n` consecutive low samples. */
  function Lows(n: nat): (ls: seq<Level>)
    ensures |ls| == n
    ensures forall i :: 0 <= i < n ==> ls[i] == Low
  {
    seq(n, i => Low)
  }

  /** The length of the run of low samples at the end of `ls`: how long the
      button has been held down as of the last sample. */
  function TrailingLows(ls: seq<Level>): (k: nat)
    ensures k <= |ls|
    decreases |ls|
  {
    if ls == [] || ls[|ls| - 1] == High then 0
    else
      1 + TrailingLows(ls[..|ls| - 1])
  }

  function Floor0(x: int): nat {
    if x < 0 then 0 else x
  }

  /** Reference definition of the counter after steady samples `ls`: if the
      button has been down since the start, `c0` counted down by the length
      of the hold (not below 0); otherwise the threshold counted down by the
      length of the current hold. */
  function Expected(c0: int, ls: seq<Level>): int {
    var k := TrailingLows(ls);
    if k == |ls| then Floor0(c0 - k) else Floor0(Threshold - k)
  }
}
