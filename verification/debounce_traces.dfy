/** Properties of the long-press detector over whole input traces. */
module DebounceTraces {
  import opened Debounce

  /** Running a longer trace extends the shorter one: the firing flags of a
      prefix are kept, and the next flag is the step taken from the prefix's
      counter. */
  lemma {:induction false} RunPrefix(c0: int, ps: seq<Reads>, i: nat)
    requires i < |ps|
    ensures Run(c0, ps[..i + 1]).counter == Step(Run(c0, ps[..i]).counter, ps[i]).counter
    ensures Run(c0, ps).fired[i] == Step(Run(c0, ps[..i]).counter, ps[i]).fired
    decreases |ps|
  {
    assert ps[..i + 1][..i] == ps[..i];
    if i + 1 < |ps| {
      var init := ps[..|ps| - 1];
      RunPrefix(c0, init, i);
      assert init[..i + 1] == ps[..i + 1];
      assert init[..i] == ps[..i];
    } else {
      assert ps[..i + 1] == ps;
    }
  }

  /** Running one more iteration takes one more step from the counter reached. */
  lemma RunSnoc(c0: int, ps: seq<Reads>, p: Reads)
    ensures var before := Run(c0, ps);
      var s := Step(before.counter, p);
      Run(c0, ps + [p]) == Trace(s.counter, before.fired + [s.fired])
  {
    assert (ps + [p])[..|ps|] == ps;
  }

  /** A flag is raised exactly in an iteration whose first sample is low and
      which found the counter at 1; when the second sample is low too, the
      counter is then 0. */
  lemma FiresOnlyFromOneToZero(c0: int, ps: seq<Reads>, i: nat)
    requires i < |ps|
    ensures Run(c0, ps).fired[i] <==> ps[i].atCheck == Low && Run(c0, ps[..i]).counter == 1
    ensures Run(c0, ps).fired[i] && ps[i].atReset == Low ==> Run(c0, ps[..i + 1]).counter == 0
  {
    RunPrefix(c0, ps, i);
  }

  lemma SteadilyPrefix(ls: seq<Level>, i: nat)
    requires i <= |ls|
    ensures Steadily(ls)[..i] == Steadily(ls[..i])
  {
  }

  /** With steady samples the counter is the reference definition `Expected`. */
  lemma {:induction false} RunMatchesExpected(c0: int, ls: seq<Level>)
    requires InRange(c0)
    ensures Run(c0, Steadily(ls)).counter == Expected(c0, ls)
    decreases |ls|
  {
    if ls != [] {
      var init := ls[..|ls| - 1];
      SteadilyPrefix(ls, |ls| - 1);
      RunMatchesExpected(c0, init);
      if ls[|ls| - 1] == Low {
        assert TrailingLows(ls) == 1 + TrailingLows(init);
      }
    }
  }

  /** From power-on (counter 500), an iteration fires exactly when the
      button has been held for exactly 500 consecutive samples. */
  lemma FiresExactlyAtThreshold(ls: seq<Level>, i: nat)
    requires i < |ls|
    ensures Run(Threshold, Steadily(ls)).fired[i] <==> TrailingLows(ls[..i + 1]) == Threshold
  {
    FiresOnlyFromOneToZero(Threshold, Steadily(ls), i);
    SteadilyPrefix(ls, i);
    RunMatchesExpected(Threshold, ls[..i]);
    assert ls[..i + 1][..i] == ls[..i];
    if ls[i] == Low {
      assert TrailingLows(ls[..i + 1]) == 1 + TrailingLows(ls[..i]);
    }
  }

  /** Without a high sample in between, the hold keeps growing by one per sample. */
  lemma {:induction false} HoldGrows(ls: seq<Level>, i: nat, j: nat)
    requires i <= j <= |ls|
    requires forall m :: i <= m < j ==> ls[m] == Low
    ensures TrailingLows(ls[..j]) == TrailingLows(ls[..i]) + (j - i)
    decreases j - i
  {
    if i < j {
      HoldGrows(ls, i, j - 1);
      assert ls[..j][..j - 1] == ls[..j - 1];
    }
  }

  /** While no second sample sees the pin high, a counter at 0 stays at 0. */
  lemma {:induction false} StaysAtZero(c0: int, ps: seq<Reads>, i: nat, j: nat)
    requires i <= j <= |ps|
    requires Run(c0, ps[..i]).counter == 0
    requires forall m :: i <= m < j ==> ps[m].atReset == Low
    ensures Run(c0, ps[..j]).counter == 0
    decreases j - i
  {
    if i < j {
      StaysAtZero(c0, ps, i, j - 1);
      RunPrefix(c0, ps[..j], j - 1);
      assert ps[..j][..j - 1] == ps[..j - 1];
    }
  }

  /** The detector never fires twice without a reset in between: on any
      trace, whatever the pin did between its two samples, two firing
      iterations are separated by an iteration whose `is_high()` sample saw
      the pin high (possibly the first firing iteration itself). */
  lemma AtMostOnceBetweenResets(c0: int, ps: seq<Reads>, i: nat, j: nat)
    requires i < j < |ps|
    requires Run(c0, ps).fired[i] && Run(c0, ps).fired[j]
    ensures exists m :: i <= m < j && ps[m].atReset == High
  {
    FiresOnlyFromOneToZero(c0, ps, i);
    FiresOnlyFromOneToZero(c0, ps, j);
    if !exists m :: i <= m < j && ps[m].atReset == High {
      StaysAtZero(c0, ps, i + 1, j);
      assert false;
    }
  }

  /** One press, one notification at most: between any two firing iterations
      of a steady trace the button was released. */
  lemma AtMostOncePerPress(c0: int, ls: seq<Level>, i: nat, j: nat)
    requires i < j < |ls|
    requires Run(c0, Steadily(ls)).fired[i] && Run(c0, Steadily(ls)).fired[j]
    ensures exists m :: i < m < j && ls[m] == High
  {
    AtMostOnceBetweenResets(c0, Steadily(ls), i, j);
    FiresOnlyFromOneToZero(c0, Steadily(ls), i);
    var m :| i <= m < j && Steadily(ls)[m].atReset == High;
    assert m != i && ls[m] == High;
  }

  /** A press of `n` samples that begins after a release (or at power-on)
      fires in exactly one of its samples, the 500th, and in none when it is
      shorter than 500. */
  lemma PressFiresAtItsThresholdSample(pre: seq<Level>, n: nat, post: seq<Level>)
    requires pre == [] || pre[|pre| - 1] == High
    ensures forall i :: |pre| <= i < |pre| + n ==>
      (Run(Threshold, Steadily(pre + Lows(n) + post)).fired[i] <==> i - |pre| + 1 == Threshold)
  {
    forall i | |pre| <= i < |pre| + n
      ensures Run(Threshold, Steadily(pre + Lows(n) + post)).fired[i] <==> i - |pre| + 1 == Threshold
    {
      PressSampleFires(pre, n, post, i);
    }
  }

  /** One sample of `PressFiresAtItsThresholdSample`. */
  lemma PressSampleFires(pre: seq<Level>, n: nat, post: seq<Level>, i: nat)
    requires pre == [] || pre[|pre| - 1] == High
    requires |pre| <= i < |pre| + n
    ensures Run(Threshold, Steadily(pre + Lows(n) + post)).fired[i] <==> i - |pre| + 1 == Threshold
  {
    PressHoldLength(pre, n, post, i);
    FiresExactlyAtThreshold(pre + Lows(n) + post, i);
  }

  /** At sample `i` of a press that began after a release, the button has
      been held for `i - |pre| + 1` samples. */
  lemma PressHoldLength(pre: seq<Level>, n: nat, post: seq<Level>, i: nat)
    requires pre == [] || pre[|pre| - 1] == High
    requires |pre| <= i < |pre| + n
    ensures TrailingLows((pre + Lows(n) + post)[..i + 1]) == i - |pre| + 1
  {
    var ls := pre + Lows(n) + post;
    forall m | |pre| <= m < i + 1
      ensures ls[m] == Low
    {
      assert ls[m] == Lows(n)[m - |pre|];
    }
    HoldGrows(ls, |pre|, i + 1);
    assert ls[..|pre|] == pre;
  }

  /** Once the counter is 0, further low samples keep it at 0 and fire nothing. */
  lemma {:induction false} HeldAtZero(n: nat)
    ensures Run(0, Steadily(Lows(n))).counter == 0
    ensures forall i :: 0 <= i < n ==> !Run(0, Steadily(Lows(n))).fired[i]
    decreases n
  {
    if n > 0 {
      assert Lows(n)[..n - 1] == Lows(n - 1);
      SteadilyPrefix(Lows(n), n - 1);
      HeldAtZero(n - 1);
    }
  }

  /** A short press — fewer than 500 low samples, then a release — fires
      nothing, and the release restores the counter to 500. */
  lemma ShortPressNeverFires(pre: seq<Level>, n: nat)
    requires pre == [] || pre[|pre| - 1] == High
    requires n < Threshold
    ensures forall k :: |pre| <= k <= |pre| + n ==>
      !Run(Threshold, Steadily(pre + Lows(n) + [High])).fired[k]
    ensures Run(Threshold, Steadily(pre + Lows(n) + [High])).counter == Threshold
  {
    var ls := pre + Lows(n) + [High];
    PressFiresAtItsThresholdSample(pre, n, [High]);
    FiresOnlyFromOneToZero(Threshold, Steadily(ls), |pre| + n);
    assert Steadily(ls)[|ls| - 1] == Steady(High);
  }

  /** Runs compose: a trace split in two runs the second part from the
      counter the first part reached. */
  lemma {:induction false} RunAppend(c0: int, ps: seq<Reads>, qs: seq<Reads>)
    ensures var mid := Run(c0, ps);
      var rest := Run(mid.counter, qs);
      Run(c0, ps + qs) == Trace(rest.counter, mid.fired + rest.fired)
    decreases |qs|
  {
    if qs == [] {
      assert ps + qs == ps;
    } else {
      var init := qs[..|qs| - 1];
      var last := qs[|qs| - 1];
      RunAppend(c0, ps, init);
      assert ps + qs == (ps + init) + [last];
      RunSnoc(c0, ps + init, last);
      RunSnoc(Run(c0, ps).counter, init, last);
      assert qs == init + [last];
    }
  }

  lemma {:induction false} TrailingLowsOfLows(n: nat)
    ensures TrailingLows(Lows(n)) == n
    decreases n
  {
    if n > 0 {
      assert Lows(n)[..n - 1] == Lows(n - 1);
      TrailingLowsOfLows(n - 1);
    }
  }

  /** `n` steady low samples count the counter down by `n`, not below 0. */
  lemma SteadyHoldCountsDown(c0: int, n: nat)
    requires InRange(c0)
    ensures Run(c0, Steadily(Lows(n))).counter == Floor0(c0 - n)
  {
    RunMatchesExpected(c0, Lows(n));
    TrailingLowsOfLows(n);
  }

  /** A glitch does not release the button: an iteration whose `is_low()`
      sample sees the pin high but whose `is_high()` sample sees it low
      neither counts nor resets. So a hold of `a` low samples, one such
      glitch, then `b` more low samples, with `a + b == 500`, still fires on
      its last sample, although no 500 consecutive steady low samples end
      there. The "consecutive samples" properties above hold for steady
      traces only. */
  lemma GlitchDoesNotReleaseHold(a: nat, b: nat)
    requires a + b == Threshold && b >= 1
    ensures Run(Threshold, Steadily(Lows(a)) + [Reads(High, Low)] + Steadily(Lows(b))).fired[a + b]
  {
    var glitch := Reads(High, Low);
    var pre := Steadily(Lows(a)) + [glitch];
    var ps := pre + Steadily(Lows(b));
    SteadyHoldCountsDown(Threshold, a);
    RunSnoc(Threshold, Steadily(Lows(a)), glitch);
    assert Run(Threshold, pre).counter == b;
    assert ps[..a + b] == pre + Steadily(Lows(b - 1));
    RunAppend(Threshold, pre, Steadily(Lows(b - 1)));
    SteadyHoldCountsDown(b, b - 1);
    FiresOnlyFromOneToZero(Threshold, ps, a + b);
  }
}
