/** The read handlers of the GATT table (src/main.rs lines 63-66 and 75-78).
    A handler is given the requested offset and the response buffer; it
    overwrites the front of the buffer with a fixed greeting and returns the
    number of valid bytes. Neither handler looks at the offset, and both
    slice the buffer unchecked, which panics when it is too short. */
module Handlers {
  import opened Bytes

  /** What a read handler leaves behind. */
  datatype ReadOutcome =
    | Filled(buffer: seq<byte>, valid: nat)
    | Panicked  // `data[..n]` with `data.len() < n`: the firmware halts

  /** The 20-byte greeting behind the first characteristic. */
  const Greeting: seq<byte> := Ascii("Hello Bare-Metal BLE")

  /** The valid-byte count `rf` reports. */
  const GreetingValid: nat := 17

  /** The greeting behind `my_characteristic`. */
  const Hola: seq<byte> := Ascii("Hola!")

  /** The valid-byte count `rf3` reports. */
  const HolaValid: nat := 5

  /** Copies `text` over the front of `buf` and reports `valid` bytes. */
  function Fill(text: seq<byte>, valid: nat, buf: seq<byte>): (r: ReadOutcome)
    ensures r.Panicked? <==> |buf| < |text|
    ensures r.Filled? ==> |r.buffer| == |buf| && r.valid == valid
    ensures r.Filled? ==> r.buffer[..|text|] == text && r.buffer[|text|..] == buf[|text|..]
  {
    if |buf| < |text| then Panicked else Filled(text + buf[|text|..], valid)
  }

  /** `rf`: the first characteristic's read handler. */
  function ReadGreeting(offset: nat, buf: seq<byte>): (r: ReadOutcome)
    ensures r.Panicked? <==> |buf| < |Greeting|
    ensures r.Filled? ==> r.valid == GreetingValid && |r.buffer| == |buf|
    ensures r.Filled? ==> r.buffer[..|Greeting|] == Greeting && r.buffer[|Greeting|..] == buf[|Greeting|..]
  {
    Fill(Greeting, GreetingValid, buf)
  }

  /** `rf3`: the read handler of `my_characteristic`. */
  function ReadHola(offset: nat, buf: seq<byte>): (r: ReadOutcome)
    ensures r.Panicked? <==> |buf| < |Hola|
    ensures r.Filled? ==> r.valid == HolaValid && |r.buffer| == |buf|
    ensures r.Filled? ==> r.buffer[..|Hola|] == Hola && r.buffer[|Hola|..] == buf[|Hola|..]
  {
    Fill(Hola, HolaValid, buf)
  }

  /** Neither handler honours the requested offset: any two offsets give the
      same answer. */
  lemma ReadsIgnoreOffset(o1: nat, o2: nat, buf: seq<byte>)
    ensures ReadGreeting(o1, buf) == ReadGreeting(o2, buf)
    ensures ReadHola(o1, buf) == ReadHola(o2, buf)
  {
  }

  /** Only the first 17 of the 20 greeting bytes are reported valid, so a
      peer reading the first characteristic receives "Hello Bare-Metal "
      (the trailing "BLE" is written into the buffer but not sent). */
  lemma PeerReceivesGreetingPrefix(offset: nat, buf: seq<byte>)
    requires |buf| >= |Greeting|
    ensures ReadGreeting(offset, buf).Filled?
    ensures ReadGreeting(offset, buf).buffer[..ReadGreeting(offset, buf).valid] == Ascii("Hello Bare-Metal ")
  {
  }

  /** A peer reading `my_characteristic` receives exactly "Hola!". */
  lemma PeerReceivesHola(offset: nat, buf: seq<byte>)
    requires |buf| >= |Hola|
    ensures ReadHola(offset, buf).Filled?
    ensures ReadHola(offset, buf).buffer[..ReadHola(offset, buf).valid] == Ascii("Hola!")
  {
  }
}
