/** The persistent entities of the sharing service. Identifiers and instants
    are unbounded integers: the Java `Long` ids and `LocalDateTime` values are
    only ever compared, so neither width nor calendar arithmetic matters. */
module Entities {
  import opened Outcomes

  /** The approval state of a booking. `Waiting` is the state of a booking
      that nobody has decided on yet. */
  datatype Status = Waiting | Approved | Rejected

  datatype User = User(id: int, name: string, email: string)

  /** An item offered for sharing. `available` is a nullable Java `Boolean`,
      so it has three values: `Some(true)`, `Some(false)` and `None`.
      `requestId` links the item to the request it answers, if any. */
  datatype Item = Item(
    id: int,
    name: string,
    description: string,
    available: Option<bool>,
    ownerId: int,
    requestId: Option<int>)

  /** A booking of `item` by `booker` for the window from `start` to `end`. */
  datatype Booking = Booking(
    id: int,
    start: int,
    end: int,
    status: Status,
    item: Item,
    booker: User)

  /** A request for an item that nobody offers yet. */
  datatype ItemRequest = ItemRequest(
    id: int,
    description: string,
    created: int,
    requesterId: int)
}
