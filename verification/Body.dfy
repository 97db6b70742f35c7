/** HTTP bodies, as the results of polling them one after the other. */
module Body {
  import opened Wire
  import opened Headers
  import opened Status

  datatype BodyEvent =
    | Pending
    | Data(data: bytes)
    | Trailers(trailers: Headers)
    | Broken(status: Status)
    | End

  predicate Stops(e: BodyEvent) {
    e.Trailers? || e.Broken? || e.End?
  }

  /** The data before the first event that is neither data nor pending, as one string of bytes. */
  function Payload(events: seq<BodyEvent>): bytes {
    if events == [] || Stops(events[0]) then []
    else if events[0].Data? then events[0].data + Payload(events[1..])
    else Payload(events[1..])
  }

  /** The event that ends the body; a body that yields nothing more has ended. */
  function Terminal(events: seq<BodyEvent>): (e: BodyEvent)
    ensures Stops(e)
  {
    if events == [] then End
    else if Stops(events[0]) then events[0]
    else Terminal(events[1..])
  }

  /** A transport may split, join and delay data frames, but keeps their bytes and the ending. */
  ghost predicate Carries(sent: seq<BodyEvent>, received: seq<BodyEvent>) {
    Payload(sent) == Payload(received) && Terminal(sent) == Terminal(received)
  }

  /** The bytes in all data events, past the first ending too. */
  function DataBytes(events: seq<BodyEvent>): nat {
    if events == [] then 0
    else (if events[0].Data? then |events[0].data| else 0) + DataBytes(events[1..])
  }
}
