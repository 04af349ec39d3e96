/** The ADC retry loop at the top of each session-loop iteration
    (src/main.rs lines 110-121): `adc1.read` is called until it yields a
    reading; every failure is logged and retried at once. */
module Adc {
  import opened Wrappers

  type u16 = x: int | 0 <= x < 0x1_0000

  /** The result of one `adc1.read(&mut pin)` call. */
  datatype Attempt = Ready(value: u16) | Failed

  /** The reading the iteration goes on with: the first successful attempt.
      `None` means every attempt given failed; the firmware then keeps
      spinning and never leaves the loop. */
  function FirstOk(attempts: seq<Attempt>): (r: Option<u16>)
    ensures r.None? <==> forall j :: 0 <= j < |attempts| ==> attempts[j].Failed?
    ensures r.Some? ==> exists i :: 0 <= i < |attempts| && attempts[i] == Ready(r.value)
                                   && forall j :: 0 <= j < i ==> attempts[j].Failed?
    decreases |attempts|
  {
    if attempts == [] then None
    else match attempts[0]
      case Ready(v) => Some(v)
      case Failed =>
        var r := FirstOk(attempts[1..]);
        assert r.Some? ==> exists i :: 1 <= i < |attempts| && attempts[i] == Ready(r.value)
                                      && forall j :: 0 <= j < i ==> attempts[j].Failed? by {
          if r.Some? {
            var i :| 0 <= i < |attempts[1..]| && attempts[1..][i] == Ready(r.value)
                     && forall j :: 0 <= j < i ==> attempts[1..][j].Failed?;
            assert attempts[i + 1] == Ready(r.value);
            assert forall j :: 1 <= j < i + 1 ==> attempts[j] == attempts[1..][j - 1];
          }
        }
        r
  }

  /** The retry loop itself: consumes attempts until one succeeds, counting
      the failures it logged on the way. */
  method ReadWithRetry(attempts: seq<Attempt>) returns (reading: Option<u16>, failures: nat)
    ensures reading == FirstOk(attempts)
    ensures reading.Some? ==> failures < |attempts| && attempts[failures] == Ready(reading.value)
    ensures reading.None? ==> failures == |attempts|
    ensures forall j :: 0 <= j < failures ==> attempts[j].Failed?
  {
    failures := 0;
    while failures < |attempts|
      invariant failures <= |attempts|
      invariant forall j :: 0 <= j < failures ==> attempts[j].Failed?
      invariant FirstOk(attempts) == FirstOk(attempts[failures..])
    {
      match attempts[failures]
      case Ready(v) =>
        return Some(v), failures;
      case Failed =>
        assert attempts[failures..][1..] == attempts[failures + 1..];
        failures := failures + 1;
    }
    reading := None;
  }
}
