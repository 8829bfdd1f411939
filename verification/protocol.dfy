/** The messages the host sends to a display over its data channel. The
    station dispatches on the message's `type` string; every type other than
    the two it knows is carried by `Other`. */
module Protocol {
  import opened Types

  /** `{ exercise, timeLeft, isPaused }`, the payload of a `SYNC_STATE` message. */
  datatype Payload = Payload(exercise: Exercise, timeLeft: int, isPaused: bool)

  datatype Message =
    | SyncState(payload: Payload)   // type 'SYNC_STATE'
    | EndSession                    // type 'END_SESSION'
    | Other(kind: string)           // any other type
}
