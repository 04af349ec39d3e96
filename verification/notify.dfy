/** The subscription-gated notification of the session loop
    (src/main.rs lines 125, 130-142). When the debounce fires, the loop reads
    the client characteristic configuration descriptor (CCCD) of
    `my_characteristic` into a one-byte buffer and builds a notification only
    if the lookup reported exactly one byte and that byte is 1. */
module Notify {
  import opened Wrappers
  import opened Bytes

  /** The value handle a notification can target: only `my_characteristic`
      is notify-capable. */
  datatype Handle = MyCharacteristic

  datatype Notification = Notification(handle: Handle, payload: seq<byte>)

  /** The payload `b"Notification"`. */
  const Payload: seq<byte> := Ascii("Notification")

  /** The one notification the firmware ever sends. */
  const Alert: Notification := Notification(MyCharacteristic, Payload)

  /** What `srv.get_characteristic_value(my_characteristic_notify_enable_handle, 0, &mut cccd)`
      yields when it answers: the length it reports, and `cccd[0]` afterwards. */
  datatype CccdRead = CccdRead(len: nat, first: byte)

  /** The CCCD answer that means "the peer has subscribed". */
  const Subscribed: CccdRead := CccdRead(1, 1)

  /** The notification handed to the attribute server this iteration.
      `lookup` is consulted only when `fired` holds. */
  function Gate(fired: bool, lookup: Option<CccdRead>): (r: Option<Notification>)
    ensures r.Some? <==> fired && lookup == Some(Subscribed)
    ensures r.Some? ==> r.value.handle == MyCharacteristic && r.value.payload == Payload
    ensures lookup.Some? && (lookup.value.len != 1 || lookup.value.first != 1) ==> r.None?
  {
    if !fired then None
    else match lookup
      case Some(CccdRead(1, b)) => if b == 1 then Some(Alert) else None
      case _ => None
  }
}
