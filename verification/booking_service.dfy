/** The booking lifecycle: creation behind an ordered chain of guards, the
    owner's approval decision, visibility-checked lookup and the
    state-filtered, paginated listings. Two versions of creation are kept:
    the final service (`Create`), which performs no time check, and the
    earlier one (`CreateBooking`), which rejects a start after the end. */
module BookingService {
  import opened Outcomes
  import opened Entities
  import Stores
  import Seqs
  import R = BookingRepository
  import Users = UserService
  import UserRepository
  import Validators

  /** The tables the service reads and writes. */
  datatype Db = Db(
    users: Stores.Store<User>,
    items: Stores.Store<Item>,
    bookings: Stores.Store<Booking>)

  /** The body of a create-booking request once the gateway has checked that
      both instants are present. */
  datatype NewBooking = NewBooking(itemId: int, start: int, end: int)

  /** The parameters of a listing (`GetBookingRequest`). */
  datatype ListRequest = ListRequest(userId: int, state: R.BookingState, from: int, size: int)

  /** The item exists and `userId` is not its owner. */
  predicate Bookable(db: Db, itemId: int, userId: int)
  {
    itemId in db.items.rows && db.items.rows[itemId].ownerId != userId
  }

  /** The item exists and is not explicitly marked unavailable. */
  predicate Lendable(db: Db, itemId: int)
  {
    itemId in db.items.rows && db.items.rows[itemId].available != Some(false)
  }

  /** The guards `create` runs before it stores anything, in order: the item
      exists, the requester is not its owner, the item is not explicitly
      unavailable (a `null` flag passes), and the requester exists. The first
      one that fails decides the error. */
  function CreateGuard(db: Db, itemId: int, userId: int): (e: Option<Error>)
    ensures itemId !in db.items.rows ==> e == Some(NotFound)
    ensures Bookable(db, itemId, userId) && db.items.rows[itemId].available == Some(false) ==> e == Some(ItemUnavailable)
    ensures itemId in db.items.rows && !Bookable(db, itemId, userId) ==> e == Some(NotFound)
    ensures Bookable(db, itemId, userId) && Lendable(db, itemId) && userId !in db.users.rows ==> e == Some(NotFound)
    ensures e.None? <==> Bookable(db, itemId, userId) && Lendable(db, itemId) && userId in db.users.rows
  {
    match Stores.Find(db.items, itemId)
    case None => Some(NotFound)
    case Some(item) =>
      if item.ownerId == userId then Some(NotFound)
      else if item.available == Some(false) then Some(ItemUnavailable)
      else if userId !in db.users.rows then Some(NotFound)
      else None
  }

  /** `db'` is `db` with the single new booking `b` added for `dto` by
      `userId`: `b` carries the looked-up item and user, the requested window
      and the initial status, and nothing else changes. */
  ghost predicate Stored(db: Db, dto: NewBooking, userId: int, db': Db, b: Booking)
  {
    && dto.itemId in db.items.rows && userId in db.users.rows
    && b.item == db.items.rows[dto.itemId]
    && b.booker == db.users.rows[userId]
    && b.start == dto.start && b.end == dto.end
    && b.status == Status.Waiting
    && b.id == Stores.NextId(db.bookings)
    && db'.users == db.users && db'.items == db.items
    && Stores.Find(db'.bookings, b.id) == Some(b)
    && (forall k :: k != b.id ==> Stores.Find(db'.bookings, k) == Stores.Find(db.bookings, k))
    && (Stores.Valid(db.bookings) ==> Stores.Valid(db'.bookings) && b.id !in db.bookings.rows)
  }

  /** Saves the new booking: the repository stamps the next id. */
  function Insert(db: Db, dto: NewBooking, userId: int): (o: (Db, Booking))
    requires CreateGuard(db, dto.itemId, userId).None?
    ensures Stored(db, dto, userId, o.0, o.1)
  {
    var b := Booking(Stores.NextId(db.bookings), dto.start, dto.end, Status.Waiting,
                     db.items.rows[dto.itemId], db.users.rows[userId]);
    (db.(bookings := Stores.Insert(db.bookings, b)), b)
  }

  /** `create` of the final service: the guards, then the save. It does not
      compare `start` with `end`. */
  function Create(db: Db, dto: NewBooking, userId: int): (o: Outcome<Db, Booking>)
    ensures CreateGuard(db, dto.itemId, userId).Some? ==>
      o.result == Err(CreateGuard(db, dto.itemId, userId).value) && o.state == db
    ensures o.result.Ok? <==> CreateGuard(db, dto.itemId, userId).None?
    ensures o.result.Ok? ==> Stored(db, dto, userId, o.state, o.result.value)
  {
    match CreateGuard(db, dto.itemId, userId)
    case Some(e) => Outcome(db, Err(e))
    case None =>
      var (db', b) := Insert(db, dto, userId);
      Outcome(db', Ok(b))
  }

  /** `createBooking` of the earlier service: the same guards, then a fifth
      that rejects a start strictly after the end. An empty window passes. */
  function CreateBooking(db: Db, dto: NewBooking, userId: int): (o: Outcome<Db, Booking>)
    ensures CreateGuard(db, dto.itemId, userId).Some? ==>
      o.result == Err(CreateGuard(db, dto.itemId, userId).value) && o.state == db
    ensures CreateGuard(db, dto.itemId, userId).None? && dto.start > dto.end ==>
      o.result == Err(InvalidBookingTime) && o.state == db
    ensures o.result.Ok? <==> CreateGuard(db, dto.itemId, userId).None? && dto.start <= dto.end
    ensures o.result.Ok? ==> Stored(db, dto, userId, o.state, o.result.value)
  {
    match CreateGuard(db, dto.itemId, userId)
    case Some(e) => Outcome(db, Err(e))
    case None =>
      if !Validators.ServiceTimeOk(dto.start, dto.end) then Outcome(db, Err(InvalidBookingTime))
      else
        var (db', b) := Insert(db, dto, userId);
        Outcome(db', Ok(b))
  }

  /** The two versions of creation agree on every window the earlier one
      accepts, including the empty one; they differ only on inverted
      windows, which the final service stores. */
  lemma CreateVersionsAgree(db: Db, dto: NewBooking, userId: int)
    ensures dto.start <= dto.end ==> CreateBooking(db, dto, userId) == Create(db, dto, userId)
    ensures dto.start > dto.end && CreateGuard(db, dto.itemId, userId).None? ==>
      Create(db, dto, userId).result.Ok? && CreateBooking(db, dto, userId).result == Err(InvalidBookingTime)
  {
  }

  /** A request that passed the gateway's date check never meets the earlier
      service's time error. */
  lemma GatewayExcludesTimeError(db: Db, dto: Validators.CreateBookingDto, userId: int)
    requires Validators.CheckDate(dto)
    ensures CreateBooking(db, NewBooking(dto.itemId, dto.start.value, dto.end.value), userId).result
      != Err(InvalidBookingTime)
  {
  }

  /** The owner of an item can never book it, whatever the window. */
  lemma OwnerCannotBook(db: Db, dto: NewBooking)
    requires dto.itemId in db.items.rows
    ensures Create(db, dto, db.items.rows[dto.itemId].ownerId) == Outcome(db, Err(NotFound))
    ensures CreateBooking(db, dto, db.items.rows[dto.itemId].ownerId) == Outcome(db, Err(NotFound))
  {
  }

  /** The approval state machine: only a waiting booking can be decided, and
      the decision is final. */
  function Decide(status: Status, approved: bool): (r: Result<Status>)
    ensures r.Ok? <==> status == Status.Waiting
    ensures r.Err? ==> r.error == BookingStatus
    ensures r.Ok? ==> r.value != Status.Waiting && (r.value == Status.Approved <==> approved)
  {
    if status != Status.Waiting then Err(BookingStatus)
    else if approved then Ok(Status.Approved)
    else Ok(Status.Rejected)
  }

  /** The booking exists and `ownerId` owns its item. */
  predicate OwnsBooking(db: Db, id: int, ownerId: int)
  {
    id in db.bookings.rows && db.bookings.rows[id].item.ownerId == ownerId
  }

  /** `setApprove`: `NotFound` for a missing booking or an actor who does not
      own the item, `BookingStatus` for a booking already decided; otherwise
      the status becomes `Approved` or `Rejected` and nothing else changes. */
  function SetApprove(db: Db, id: int, approved: bool, ownerId: int): (o: Outcome<Db, Booking>)
    ensures !OwnsBooking(db, id, ownerId) ==> o.result == Err(NotFound)
    ensures OwnsBooking(db, id, ownerId) && db.bookings.rows[id].status != Status.Waiting ==> o.result == Err(BookingStatus)
    ensures o.result.Err? ==> o.state == db
    ensures o.result.Ok? <==> OwnsBooking(db, id, ownerId) && db.bookings.rows[id].status == Status.Waiting
    ensures o.result.Ok? ==>
      && o.result.value.status == (if approved then Status.Approved else Status.Rejected)
      && o.result.value == db.bookings.rows[id].(status := o.result.value.status)
      && Stores.Find(o.state.bookings, id) == Some(o.result.value)
    ensures o.state.users == db.users && o.state.items == db.items
    ensures o.state.bookings.counter == db.bookings.counter
    ensures forall k :: k != id ==> Stores.Find(o.state.bookings, k) == Stores.Find(db.bookings, k)
    ensures Stores.Valid(db.bookings) ==> Stores.Valid(o.state.bookings)
  {
    match Stores.Find(db.bookings, id)
    case None => Outcome(db, Err(NotFound))
    case Some(b) =>
      if b.item.ownerId != ownerId then Outcome(db, Err(NotFound))
      else
        match Decide(b.status, approved)
        case Err(e) => Outcome(db, Err(e))
        case Ok(st) =>
          var b' := b.(status := st);
          Outcome(db.(bookings := Stores.Put(db.bookings, id, b')), Ok(b'))
  }

  /** A freshly created booking is waiting, so its item's owner can decide it
      at once, either way. */
  lemma CreatedBookingIsApprovable(db: Db, dto: NewBooking, userId: int, approved: bool)
    requires Create(db, dto, userId).result.Ok?
    ensures var o := Create(db, dto, userId);
      var b := o.result.value;
      SetApprove(o.state, b.id, approved, b.item.ownerId).result
        == Ok(b.(status := if approved then Status.Approved else Status.Rejected))
  {
  }

  /** Decisions are final: once a booking has been approved or rejected, no
      later approval call by anyone succeeds on it, and the stored booking
      stays as it is. */
  lemma DecisionIsFinal(db: Db, id: int, approved: bool, ownerId: int, again: bool, actor: int)
    requires SetApprove(db, id, approved, ownerId).result.Ok?
    ensures var db' := SetApprove(db, id, approved, ownerId).state;
      && SetApprove(db', id, again, actor).result.Err?
      && SetApprove(db', id, again, actor).state == db'
      && (actor == ownerId ==> SetApprove(db', id, again, actor).result == Err(BookingStatus))
  {
  }

  /** No operation moves a decided booking: approval only rewrites the
      waiting booking it decides, and creation (in a store whose keys came
      from its counter) only adds a new key. */
  lemma DecidedBookingsAreFrozen(db: Db, k: int, id: int, approved: bool, ownerId: int, dto: NewBooking, userId: int)
    requires Stores.Valid(db.bookings)
    requires k in db.bookings.rows && db.bookings.rows[k].status != Status.Waiting
    ensures Stores.Find(SetApprove(db, id, approved, ownerId).state.bookings, k) == Some(db.bookings.rows[k])
    ensures Stores.Find(Create(db, dto, userId).state.bookings, k) == Some(db.bookings.rows[k])
    ensures Stores.Find(CreateBooking(db, dto, userId).state.bookings, k) == Some(db.bookings.rows[k])
  {
  }

  /** `userId` booked `b` or owns its item. */
  predicate Party(b: Booking, userId: int)
  {
    b.booker.id == userId || b.item.ownerId == userId
  }

  /** `getById`: the stored booking, unchanged, for its booker or its item's
      owner; `NotFound` for everyone else and for a missing booking. */
  function GetById(db: Db, id: int, userId: int): (r: Result<Booking>)
    ensures r.Ok? <==> id in db.bookings.rows && Party(db.bookings.rows[id], userId)
    ensures r.Ok? ==> r.value == db.bookings.rows[id]
    ensures r.Err? ==> r.error == NotFound
  {
    match Stores.Find(db.bookings, id)
    case None => Err(NotFound)
    case Some(b) =>
      if Party(b, userId) then Ok(b) else Err(NotFound)
  }

  /** After a successful creation the booker and the item's owner both see
      the new booking; any third user gets `NotFound`. Users are stored under
      their own ids, so the booker recorded is `userId` itself. */
  lemma CreatedBookingVisibility(db: Db, dto: NewBooking, userId: int, viewer: int)
    requires UserRepository.Keyed(db.users)
    requires Create(db, dto, userId).result.Ok?
    ensures var o := Create(db, dto, userId);
      var b := o.result.value;
      && GetById(o.state, b.id, userId) == Ok(b)
      && GetById(o.state, b.id, b.item.ownerId) == Ok(b)
      && (viewer != userId && viewer != b.item.ownerId ==> GetById(o.state, b.id, viewer) == Err(NotFound))
  {
  }

  /** `getAllForUserByState`: `NotFound` for an unknown user; otherwise page
      `from / size` of the user's bookings in the requested state, latest
      start first. */
  function ListForUser(db: Db, req: ListRequest, now: int): (r: Result<seq<Booking>>)
    requires req.from >= 0 && req.size >= 1
    ensures r.Err? <==> req.userId !in db.users.rows
    ensures r.Err? ==> r.error == NotFound
    ensures r.Ok? ==> |r.value| <= req.size
    ensures r.Ok? ==> |r.value| == Seqs.PageLength(|R.BookerMatches(db.bookings, req.userId, req.state, now)|, Seqs.PageIndex(req.from, req.size), req.size)
    ensures r.Ok? ==> forall i :: 0 <= i < |r.value| ==>
      && r.value[i] in Stores.FindAll(db.bookings)
      && R.BookedBy(r.value[i], req.userId)
      && R.InState(r.value[i], req.state, now)
    ensures r.Ok? ==> Seqs.SortedDesc(r.value, R.ByStart)
  {
    match Users.CheckUserExist(db.users, req.userId)
    case Some(e) => Err(e)
    case None =>
      Ok(R.FindByBooker(db.bookings, req.userId, req.state, now, Seqs.PageIndex(req.from, req.size), req.size))
  }

  /** `getAllForOwnerByState`: the same, over the bookings of the items the
      user owns. */
  function ListForOwner(db: Db, req: ListRequest, now: int): (r: Result<seq<Booking>>)
    requires req.from >= 0 && req.size >= 1
    ensures r.Err? <==> req.userId !in db.users.rows
    ensures r.Err? ==> r.error == NotFound
    ensures r.Ok? ==> |r.value| <= req.size
    ensures r.Ok? ==> |r.value| == Seqs.PageLength(|R.OwnerMatches(db.bookings, req.userId, req.state, now)|, Seqs.PageIndex(req.from, req.size), req.size)
    ensures r.Ok? ==> forall i :: 0 <= i < |r.value| ==>
      && r.value[i] in Stores.FindAll(db.bookings)
      && R.OwnedBy(r.value[i], req.userId)
      && R.InState(r.value[i], req.state, now)
    ensures r.Ok? ==> Seqs.SortedDesc(r.value, R.ByStart)
  {
    match Users.CheckUserExist(db.users, req.userId)
    case Some(e) => Err(e)
    case None =>
      Ok(R.FindByOwner(db.bookings, req.userId, req.state, now, Seqs.PageIndex(req.from, req.size), req.size))
  }

  /** Paging on through a user's listing: a request for a later page (a
      larger `from / size`) never repeats a booking an earlier page showed,
      beyond its multiplicity, and lists only bookings starting no later
      than every booking on the earlier page. */
  lemma ListForUserPagesInOrder(db: Db, req: ListRequest, from': int, now: int)
    requires req.userId in db.users.rows
    requires 0 <= req.from && 0 <= from' && req.size >= 1
    requires Seqs.PageIndex(req.from, req.size) < Seqs.PageIndex(from', req.size)
    ensures var a, b := ListForUser(db, req, now).value, ListForUser(db, req.(from := from'), now).value;
      && multiset(a) + multiset(b) <= multiset(R.BookerMatches(db.bookings, req.userId, req.state, now))
      && forall i, j :: 0 <= i < |a| && 0 <= j < |b| ==> a[i].start >= b[j].start
  {
    R.LaterBookerPages(db.bookings, req.userId, req.state, now, Seqs.PageIndex(req.from, req.size), Seqs.PageIndex(from', req.size), req.size);
  }

  /** The same for the listing of the bookings of a user's items. */
  lemma ListForOwnerPagesInOrder(db: Db, req: ListRequest, from': int, now: int)
    requires req.userId in db.users.rows
    requires 0 <= req.from && 0 <= from' && req.size >= 1
    requires Seqs.PageIndex(req.from, req.size) < Seqs.PageIndex(from', req.size)
    ensures var a, b := ListForOwner(db, req, now).value, ListForOwner(db, req.(from := from'), now).value;
      && multiset(a) + multiset(b) <= multiset(R.OwnerMatches(db.bookings, req.userId, req.state, now))
      && forall i, j :: 0 <= i < |a| && 0 <= j < |b| ==> a[i].start >= b[j].start
  {
    R.LaterOwnerPages(db.bookings, req.userId, req.state, now, Seqs.PageIndex(req.from, req.size), Seqs.PageIndex(from', req.size), req.size);
  }

  /** Completeness: when the first page is large enough, a listing holds
      every matching booking of the user, each as often as it is stored. */
  lemma FirstPageListsAll(db: Db, req: ListRequest, now: int)
    requires 0 <= req.from < req.size
    requires req.userId in db.users.rows
    ensures |R.BookerMatches(db.bookings, req.userId, req.state, now)| <= req.size ==>
      multiset(ListForUser(db, req, now).value) == multiset(R.BookerMatches(db.bookings, req.userId, req.state, now))
    ensures |R.OwnerMatches(db.bookings, req.userId, req.state, now)| <= req.size ==>
      multiset(ListForOwner(db, req, now).value) == multiset(R.OwnerMatches(db.bookings, req.userId, req.state, now))
  {
    assert Seqs.PageIndex(req.from, req.size) == 0;
    R.ListingsArePagesOfMatches(db.bookings, req.userId, req.state, now, 0, req.size);
  }
}
