/** The backend HTTP interface as the reservation view sees it: the records it
    receives, the requests it sends and the replies it gets back. The network
    itself is not modelled: a request is a value the view emits, and its reply
    is a value handed back to the view later. */
module Api {

  import opened Wrappers

  /** A parking facility, `{ sijainti }`. */
  datatype Location = Location(sijainti: string)

  /** One spot of a facility, `{ idParkit, vapaa }`; only free spots can be clicked. */
  datatype Spot = Spot(idParkit: string, vapaa: bool)

  /** One of the user's reservations as listed by the backend. */
  datatype Booking = Booking(
    id: string,
    sijainti: string,
    parkki: string,
    rekisteri: string,
    startTime: string,
    endTime: string)

  /** The body of the create request. The two session values are sent as read
      from `localStorage`, so either may be `null`. */
  datatype CreateBody = CreateBody(
    userid: Option<string>,
    idParkit: string,
    startTime: string,
    endTime: string,
    rekisteri: Option<string>,
    sijainti: string)

  /** A request the view emits. `LoadReservations` (on mount) and
      `RefreshReservations` (after a create or delete) are the same GET of the
      user's reservations; they are told apart because their failures are
      reported with different messages, and only the first checks the user id. */
  datatype Request =
    | GetLocations
    | GetSlots(location: string)
    | LoadReservations(storedUserid: string)
    | RefreshReservations(userid: Option<string>)
    | AddReservation(body: CreateBody)
    | DeleteReservation(id: string)

  /** The outcome of a list fetch: the `result` list, or the message of a
      transport failure. */
  datatype ListReply<T> = Listed(result: seq<T>) | ListFailed(message: string)

  /** The outcome of a create or delete: `result === 'successful'`, any other
      result, or a transport failure with its message. */
  datatype Reply = Successful | OtherResult | TransportError(message: string)

  /** JavaScript truthiness of a value read from `localStorage`: `null` and the
      empty string are falsy. */
  predicate Truthy(v: Option<string>) {
    v.Some? && v.value != ""
  }
}
