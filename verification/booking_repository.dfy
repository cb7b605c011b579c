/** The derived queries of the booking repository. Each query's predicate is
    fixed by its method name (`StartIsBefore` is `booking.start < argument`,
    and so on); every listing is sorted by `start`, largest first, and cut to
    one page. */
module BookingRepository {
  import opened Outcomes
  import opened Entities
  import Stores
  import Seqs

  type Bookings = Stores.Store<Booking>

  /** The six listing filters a caller may ask for. */
  datatype BookingState = All | Current | Future | Past | Waiting | Rejected

  /** Scope of the `findByBookerId...` queries. */
  predicate BookedBy(b: Booking, bookerId: int)
  {
    b.booker.id == bookerId
  }

  /** Scope of the `findByItemOwnerId...` queries. */
  predicate OwnedBy(b: Booking, ownerId: int)
  {
    b.item.ownerId == ownerId
  }

  /** `...AndStartIsBeforeAndEndIsAfter(start, end)` */
  predicate StartBeforeEndAfter(b: Booking, start: int, end: int)
  {
    b.start < start && b.end > end
  }

  /** `...AndStartIsAfterAndEndIsAfter(start, end)` */
  predicate StartAfterEndAfter(b: Booking, start: int, end: int)
  {
    b.start > start && b.end > end
  }

  /** `...AndStartIsBeforeAndEndIsBefore(start, end)` */
  predicate StartBeforeEndBefore(b: Booking, start: int, end: int)
  {
    b.start < start && b.end < end
  }

  /** The predicate the services pass to the repository for each filter, with
      both instant arguments equal to the moment of the query. */
  predicate InState(b: Booking, state: BookingState, now: int)
  {
    match state
    case All => true
    case Current => StartBeforeEndAfter(b, now, now)
    case Future => StartAfterEndAfter(b, now, now)
    case Past => StartBeforeEndBefore(b, now, now)
    case Waiting => b.status == Status.Waiting
    case Rejected => b.status == Status.Rejected
  }

  function ByStart(b: Booking): int
  {
    b.start
  }

  /** A booker listing: page `page` of that booker's bookings in `state`,
      latest start first. */
  function FindByBooker(s: Bookings, bookerId: int, state: BookingState, now: int, page: nat, size: int)
    : (r: seq<Booking>)
    requires size >= 1
    ensures |r| <= size
    ensures |r| == Seqs.PageLength(|BookerMatches(s, bookerId, state, now)|, page, size)
    ensures forall i :: 0 <= i < |r| ==> BookedBy(r[i], bookerId) && InState(r[i], state, now)
    ensures forall i :: 0 <= i < |r| ==> r[i] in Stores.FindAll(s)
    ensures Seqs.SortedDesc(r, ByStart)
  {
    Seqs.SortedPage(BookerMatches(s, bookerId, state, now), ByStart, page, size)
  }

  /** Every stored booking of the booker in `state`, in store order: what a
      booker listing pages through. */
  function BookerMatches(s: Bookings, bookerId: int, state: BookingState, now: int): (r: seq<Booking>)
    ensures forall b :: b in r <==> b in Stores.FindAll(s) && BookedBy(b, bookerId) && InState(b, state, now)
  {
    Seqs.Filter((b: Booking) => BookedBy(b, bookerId) && InState(b, state, now), Stores.FindAll(s))
  }

  /** Every stored booking of the owner's items in `state`, in store order. */
  function OwnerMatches(s: Bookings, ownerId: int, state: BookingState, now: int): (r: seq<Booking>)
    ensures forall b :: b in r <==> b in Stores.FindAll(s) && OwnedBy(b, ownerId) && InState(b, state, now)
  {
    Seqs.Filter((b: Booking) => OwnedBy(b, ownerId) && InState(b, state, now), Stores.FindAll(s))
  }

  /** A listing never invents a booking and never repeats one beyond its
      multiplicity; when one page holds every match, page 0 is exactly the
      matches, reordered. */
  lemma ListingsArePagesOfMatches(s: Bookings, id: int, state: BookingState, now: int, page: nat, size: int)
    requires size >= 1
    ensures multiset(FindByBooker(s, id, state, now, page, size)) <= multiset(BookerMatches(s, id, state, now))
    ensures multiset(FindByOwner(s, id, state, now, page, size)) <= multiset(OwnerMatches(s, id, state, now))
    ensures |BookerMatches(s, id, state, now)| <= size ==>
      multiset(FindByBooker(s, id, state, now, 0, size)) == multiset(BookerMatches(s, id, state, now))
    ensures |OwnerMatches(s, id, state, now)| <= size ==>
      multiset(FindByOwner(s, id, state, now, 0, size)) == multiset(OwnerMatches(s, id, state, now))
  {
    if |BookerMatches(s, id, state, now)| <= size {
      Seqs.FirstPageHoldsAll(BookerMatches(s, id, state, now), ByStart, size);
    }
    if |OwnerMatches(s, id, state, now)| <= size {
      Seqs.FirstPageHoldsAll(OwnerMatches(s, id, state, now), ByStart, size);
    }
  }

  /** Paging through a booker listing never shows a booking twice and never
      goes back in time: for `p < q`, pages `p` and `q` together hold each
      match at most as often as it is stored, and every booking on page `p`
      starts no earlier than every booking on page `q`. */
  lemma LaterBookerPages(s: Bookings, id: int, state: BookingState, now: int, p: nat, q: nat, size: int)
    requires size >= 1 && p < q
    ensures multiset(FindByBooker(s, id, state, now, p, size)) + multiset(FindByBooker(s, id, state, now, q, size))
      <= multiset(BookerMatches(s, id, state, now))
    ensures forall i, j :: 0 <= i < |FindByBooker(s, id, state, now, p, size)| && 0 <= j < |FindByBooker(s, id, state, now, q, size)| ==>
      FindByBooker(s, id, state, now, p, size)[i].start >= FindByBooker(s, id, state, now, q, size)[j].start
  {
    var matches := BookerMatches(s, id, state, now);
    Seqs.PagesDisjoint(matches, ByStart, p, q, size);
    Seqs.PagesInOrder(matches, ByStart, p, q, size);
  }

  /** The same for an owner listing. */
  lemma LaterOwnerPages(s: Bookings, id: int, state: BookingState, now: int, p: nat, q: nat, size: int)
    requires size >= 1 && p < q
    ensures multiset(FindByOwner(s, id, state, now, p, size)) + multiset(FindByOwner(s, id, state, now, q, size))
      <= multiset(OwnerMatches(s, id, state, now))
    ensures forall i, j :: 0 <= i < |FindByOwner(s, id, state, now, p, size)| && 0 <= j < |FindByOwner(s, id, state, now, q, size)| ==>
      FindByOwner(s, id, state, now, p, size)[i].start >= FindByOwner(s, id, state, now, q, size)[j].start
  {
    var matches := OwnerMatches(s, id, state, now);
    Seqs.PagesDisjoint(matches, ByStart, p, q, size);
    Seqs.PagesInOrder(matches, ByStart, p, q, size);
  }

  /** An owner listing: page `page` of the bookings of that owner's items in
      `state`, latest start first. */
  function FindByOwner(s: Bookings, ownerId: int, state: BookingState, now: int, page: nat, size: int)
    : (r: seq<Booking>)
    requires size >= 1
    ensures |r| <= size
    ensures |r| == Seqs.PageLength(|OwnerMatches(s, ownerId, state, now)|, page, size)
    ensures forall i :: 0 <= i < |r| ==> OwnedBy(r[i], ownerId) && InState(r[i], state, now)
    ensures forall i :: 0 <= i < |r| ==> r[i] in Stores.FindAll(s)
    ensures Seqs.SortedDesc(r, ByStart)
  {
    Seqs.SortedPage(OwnerMatches(s, ownerId, state, now), ByStart, page, size)
  }

  /** What each state selects, in the terms of the query method names: ALL
      is the whole scope, the time states compare both ends with `now`
      strictly, and the status states compare the status. Together with the
      membership contracts of `BookerMatches` and `OwnerMatches` this fixes
      every listing's contents. */
  lemma StatePredicates(b: Booking, state: BookingState, now: int)
    ensures state == All ==> InState(b, state, now)
    ensures state == Current ==> (InState(b, state, now) <==> b.start < now && b.end > now)
    ensures state == Future ==> (InState(b, state, now) <==> b.start > now && b.end > now)
    ensures state == Past ==> (InState(b, state, now) <==> b.start < now && b.end < now)
    ensures state == BookingState.Waiting ==> (InState(b, state, now) <==> b.status == Status.Waiting)
    ensures state == BookingState.Rejected ==> (InState(b, state, now) <==> b.status == Status.Rejected)
  {
  }

  /** The three time windows are pairwise disjoint. */
  lemma WindowsDisjoint(b: Booking, now: int)
    ensures !(InState(b, Current, now) && InState(b, Future, now))
    ensures !(InState(b, Current, now) && InState(b, Past, now))
    ensures !(InState(b, Future, now) && InState(b, Past, now))
  {
  }

  /** A booking that starts or ends exactly now lies in none of the windows. */
  lemma BoundaryInNoWindow(b: Booking, now: int)
    requires b.start == now || b.end == now
    ensures !InState(b, Current, now) && !InState(b, Future, now) && !InState(b, Past, now)
  {
  }

  /** A booking whose window is not empty and whose bounds differ from now
      lies in at least one of the three windows (in exactly one, together
      with `WindowsDisjoint`). An inverted booking can lie in none (the
      server's create does not exclude it). */
  lemma WindowsCoverProperBookings(b: Booking, now: int)
    requires b.start < b.end && b.start != now && b.end != now
    ensures InState(b, Current, now) || InState(b, Future, now) || InState(b, Past, now)
  {
  }

  /** The direction of the `Sort` argument of the `findFirst...` queries,
      applied to `start`. */
  datatype Direction = Ascending | Descending

  function SortKey(dir: Direction): Booking -> int
  {
    match dir
    case Descending => (b: Booking) => b.start
    case Ascending => (b: Booking) => -b.start
  }

  /** The earliest element under `dir`: the head of the sorted list. */
  function First(xs: seq<Booking>, dir: Direction): (r: Option<Booking>)
    ensures r.None? <==> xs == []
    ensures r.Some? ==> r.value in xs
    ensures r.Some? && dir == Descending ==> forall b :: b in xs ==> b.start <= r.value.start
    ensures r.Some? && dir == Ascending ==> forall b :: b in xs ==> b.start >= r.value.start
  {
    var sorted := Seqs.SortDesc(xs, SortKey(dir));
    if sorted == [] then None
    else
      assert sorted[0] in multiset(xs);
      assert forall b :: b in xs ==> SortKey(dir)(b) <= SortKey(dir)(sorted[0]) by {
        forall b | b in xs
          ensures SortKey(dir)(b) <= SortKey(dir)(sorted[0])
        {
          assert b in multiset(sorted);
        }
      }
      Some(sorted[0])
  }

  /** The condition of `findFirstByItemIdAndEndIsBefore`. */
  predicate EndedBefore(b: Booking, itemId: int, end: int)
  {
    b.item.id == itemId && b.end < end
  }

  /** The condition of `findFirstByItemIdAndStartIsAfter`. */
  predicate StartsAfter(b: Booking, itemId: int, start: int)
  {
    b.item.id == itemId && b.start > start
  }

  /** `findFirstByItemIdAndEndIsBefore(itemId, end, sort)`: the first booking
      of the item that ended before `end` under the sort, or none (`null`). */
  function FindFirstEndedBefore(s: Bookings, itemId: int, end: int, dir: Direction): (r: Option<Booking>)
    ensures r.None? <==> forall b :: b in Stores.FindAll(s) ==> !EndedBefore(b, itemId, end)
    ensures r.Some? ==> r.value in Stores.FindAll(s) && EndedBefore(r.value, itemId, end)
    ensures r.Some? ==> forall b :: b in Stores.FindAll(s) && EndedBefore(b, itemId, end) ==>
      (dir == Descending ==> b.start <= r.value.start) && (dir == Ascending ==> b.start >= r.value.start)
  {
    var all := Stores.FindAll(s);
    var matching := Seqs.Filter((b: Booking) => EndedBefore(b, itemId, end), all);
    assert forall b :: b in matching <==> b in all && EndedBefore(b, itemId, end);
    First(matching, dir)
  }

  /** `findFirstByItemIdAndStartIsAfter(itemId, start, sort)`: the first
      booking of the item that starts after `start` under the sort, or none
      (`null`). */
  function FindFirstStartingAfter(s: Bookings, itemId: int, start: int, dir: Direction): (r: Option<Booking>)
    ensures r.None? <==> forall b :: b in Stores.FindAll(s) ==> !StartsAfter(b, itemId, start)
    ensures r.Some? ==> r.value in Stores.FindAll(s) && StartsAfter(r.value, itemId, start)
    ensures r.Some? ==> forall b :: b in Stores.FindAll(s) && StartsAfter(b, itemId, start) ==>
      (dir == Descending ==> b.start <= r.value.start) && (dir == Ascending ==> b.start >= r.value.start)
  {
    var all := Stores.FindAll(s);
    var matching := Seqs.Filter((b: Booking) => StartsAfter(b, itemId, start), all);
    assert forall b :: b in matching <==> b in all && StartsAfter(b, itemId, start);
    First(matching, dir)
  }

  /** The condition of the exists query for one booking. */
  predicate Completed(b: Booking, itemId: int, bookerId: int, status: Status, end: int)
  {
    b.item.id == itemId && b.booker.id == bookerId && b.status == status && b.end < end
  }

  /** Whether some booking in `xs` has the given item, booker and status and
      ended before `end`. */
  function AnyCompleted(xs: seq<Booking>, itemId: int, bookerId: int, status: Status, end: int): (r: bool)
    ensures r <==> exists i :: 0 <= i < |xs| && Completed(xs[i], itemId, bookerId, status, end)
  {
    if xs == [] then false
    else if Completed(xs[0], itemId, bookerId, status, end) then true
    else
      var r := AnyCompleted(xs[1..], itemId, bookerId, status, end);
      assert r ==> exists i :: 0 <= i < |xs| && Completed(xs[i], itemId, bookerId, status, end) by {
        if r {
          var i :| 0 <= i < |xs[1..]| && Completed(xs[1..][i], itemId, bookerId, status, end);
          assert xs[i + 1] == xs[1..][i];
        }
      }
      r
  }

  /** `existsBookingByItem_IdAndBooker_IdAndStatusAndEndIsBefore`: true iff a
      stored booking matches all four conditions. */
  function ExistsCompleted(s: Bookings, itemId: int, bookerId: int, status: Status, end: int): (r: bool)
    ensures r <==> exists k :: k in s.rows && Completed(s.rows[k], itemId, bookerId, status, end)
  {
    var all := Stores.FindAll(s);
    var r := AnyCompleted(all, itemId, bookerId, status, end);
    if r then
      var i :| 0 <= i < |all| && Completed(all[i], itemId, bookerId, status, end);
      Stores.FindAllExact(s, all[i]);
      r
    else
      assert forall k :: k in s.rows ==> !Completed(s.rows[k], itemId, bookerId, status, end) by {
        forall k | k in s.rows
          ensures !Completed(s.rows[k], itemId, bookerId, status, end)
        {
          Stores.FindAllExact(s, s.rows[k]);
        }
      }
      r
  }
}
