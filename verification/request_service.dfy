/** The item-request service: creating a request, reading one with the items
    that answer it, the requester's own requests and everybody else's,
    paginated. Each request in a listing carries exactly the stored items
    linked to it, an empty list when there are none. */
module ItemRequestService {
  import opened Outcomes
  import opened Entities
  import Stores
  import Seqs
  import Users = UserRepository
  import UserService
  import Items = ItemRepository

  type Requests = Stores.Store<ItemRequest>

  /** A request as the service returns it, with its answering items. */
  datatype RequestView = RequestView(request: ItemRequest, items: seq<Item>)

  /** `create`: `NotFound` and nothing saved for an unknown user; otherwise
      a request by that user, stamped with the moment of creation, is saved
      under the next id. */
  function Create(users: Users.Users, requests: Requests, description: string, userId: int, now: int)
    : (o: Outcome<Requests, ItemRequest>)
    ensures o.result.Err? <==> userId !in users.rows
    ensures o.result.Err? ==> o.result.error == NotFound && o.state == requests
    ensures o.result.Ok? ==>
      && o.result.value.requesterId == users.rows[userId].id
      && o.result.value.description == description
      && o.result.value.created == now
      && Stores.Find(o.state, o.result.value.id) == Some(o.result.value)
    ensures o.result.Ok? ==> forall k :: k != o.result.value.id ==> Stores.Find(o.state, k) == Stores.Find(requests, k)
    ensures o.result.Ok? && Users.Keyed(users) ==> o.result.value.requesterId == userId
    ensures o.result.Ok? && Stores.Valid(requests) ==> Stores.Valid(o.state) && o.result.value.id !in requests.rows
  {
    match Users.FindById(users, userId)
    case None => Outcome(requests, Err(NotFound))
    case Some(user) =>
      var saved := ItemRequest(Stores.NextId(requests), description, now, user.id);
      Outcome(Stores.Insert(requests, saved), Ok(saved))
  }

  function LinkedTo(requestId: int): Item -> bool
  {
    (it: Item) => it.requestId == Some(requestId)
  }

  /** `findAllByRequestId`: the stored items answering the request, in
      `findAll` order. */
  function ItemsFor(items: Items.Items, requestId: int): (r: seq<Item>)
    ensures forall i :: 0 <= i < |r| ==> r[i].requestId == Some(requestId)
    ensures forall it :: it in r <==> it in Items.FindAll(items) && it.requestId == Some(requestId)
    ensures forall it :: multiset(r)[it] == if it.requestId == Some(requestId) then multiset(Items.FindAll(items))[it] else 0
    ensures Seqs.Subsequence(r, Items.FindAll(items))
  {
    var linked := LinkedTo(requestId);
    assert forall it :: linked(it) <==> it.requestId == Some(requestId);
    Seqs.FilterCounts(linked, Items.FindAll(items));
    Seqs.FilterKeepsOrder(linked, Items.FindAll(items));
    Seqs.Filter(linked, Items.FindAll(items))
  }

  /** `getById`: `NotFound` for an unknown user (checked first) and for a
      missing request; otherwise the request with its answering items. */
  function GetById(users: Users.Users, requests: Requests, items: Items.Items, id: int, userId: int)
    : (r: Result<RequestView>)
    ensures r.Err? <==> userId !in users.rows || id !in requests.rows
    ensures r.Err? ==> r.error == NotFound
    ensures r.Ok? ==> r.value.request == requests.rows[id]
    ensures r.Ok? ==> forall it :: it in r.value.items <==> it in Items.FindAll(items) && it.requestId == Some(id)
    ensures r.Ok? ==> forall it :: multiset(r.value.items)[it] == if it.requestId == Some(id) then multiset(Items.FindAll(items))[it] else 0
  {
    match UserService.CheckUserExist(users, userId)
    case Some(e) => Err(e)
    case None =>
      match Stores.Find(requests, id)
      case None => Err(NotFound)
      case Some(req) => Ok(RequestView(req, ItemsFor(items, id)))
  }

  /** `Map.get` with the `null` case replaced by the empty list. */
  function Lookup(g: map<int, seq<Item>>, k: int): seq<Item>
  {
    if k in g then g[k] else []
  }

  /** `groupingBy(item -> item.getRequest().getId(), toList())`: each
      request id maps to its items in encounter order. */
  function Group(xs: seq<Item>): map<int, seq<Item>>
    requires forall i :: 0 <= i < |xs| ==> xs[i].requestId.Some?
  {
    if xs == [] then map[]
    else
      var g := Group(xs[..|xs| - 1]);
      var last := xs[|xs| - 1];
      var k := last.requestId.value;
      g[k := Lookup(g, k) + [last]]
  }

  /** Grouping keeps, under each id, exactly the items linked to that id,
      in order, and an id with no items reads as the empty list. */
  lemma {:induction false} GroupIsFilter(xs: seq<Item>, k: int)
    requires forall i :: 0 <= i < |xs| ==> xs[i].requestId.Some?
    ensures Lookup(Group(xs), k) == Seqs.Filter(LinkedTo(k), xs)
  {
    if xs != [] {
      var n := |xs| - 1;
      var init, last := xs[..n], xs[n];
      GroupIsFilter(init, k);
      Seqs.FilterStep(LinkedTo(k), xs, n);
      assert xs[..n + 1] == xs;
      var g := Group(init);
      var key := last.requestId.value;
      assert Group(xs) == g[key := Lookup(g, key) + [last]];
      assert LinkedTo(k)(last) <==> key == k;
    }
  }

  function Ids(reqs: seq<ItemRequest>): set<int>
  {
    set i | 0 <= i < |reqs| :: reqs[i].id
  }

  function LinkedToAny(ids: set<int>): Item -> bool
  {
    (it: Item) => it.requestId.Some? && it.requestId.value in ids
  }

  /** `findByRequestIn`: the stored items answering any of the requests. */
  function Linked(items: Items.Items, reqs: seq<ItemRequest>): (r: seq<Item>)
    ensures forall i :: 0 <= i < |r| ==> r[i].requestId.Some? && r[i].requestId.value in Ids(reqs)
  {
    Seqs.Filter(LinkedToAny(Ids(reqs)), Items.FindAll(items))
  }

  /** The group of one request, taken from the items of all the requests,
      is what a direct query for that request returns. */
  lemma GroupOfLinkedIsItemsFor(items: Items.Items, reqs: seq<ItemRequest>, i: int)
    requires 0 <= i < |reqs|
    ensures Lookup(Group(Linked(items, reqs)), reqs[i].id) == ItemsFor(items, reqs[i].id)
  {
    var k := reqs[i].id;
    assert k in Ids(reqs);
    GroupIsFilter(Linked(items, reqs), k);
    Seqs.FilterNarrow(LinkedTo(k), LinkedToAny(Ids(reqs)), Items.FindAll(items));
  }

  /** The requests of a list of views, in order. */
  function Unwrap(views: seq<RequestView>): (rs: seq<ItemRequest>)
    ensures |rs| == |views|
    ensures forall i :: 0 <= i < |views| ==> rs[i] == views[i].request
  {
    seq(|views|, i requires 0 <= i < |views| => views[i].request)
  }

  /** `setItemsToRequestDto`: one view per request, in order, each holding
      the grouped items of its request or the empty list. */
  function SetItemsToRequestDto(reqs: seq<ItemRequest>, items: Items.Items): (r: seq<RequestView>)
    ensures Unwrap(r) == reqs
    ensures forall i :: 0 <= i < |r| ==> r[i].items == ItemsFor(items, reqs[i].id)
  {
    var g := Group(Linked(items, reqs));
    var views := seq(|reqs|, i requires 0 <= i < |reqs| => RequestView(reqs[i], Lookup(g, reqs[i].id)));
    assert forall i :: 0 <= i < |views| ==> views[i].items == ItemsFor(items, reqs[i].id) by {
      forall i | 0 <= i < |views|
        ensures views[i].items == ItemsFor(items, reqs[i].id)
      {
        GroupOfLinkedIsItemsFor(items, reqs, i);
      }
    }
    views
  }

  /** A request that no stored item answers is shown with an empty list. */
  lemma UnansweredRequestHasNoItems(reqs: seq<ItemRequest>, items: Items.Items, i: int)
    requires 0 <= i < |reqs|
    requires forall it :: it in Items.FindAll(items) ==> it.requestId != Some(reqs[i].id)
    ensures SetItemsToRequestDto(reqs, items)[i].items == []
  {
    var all := Items.FindAll(items);
    assert forall j :: 0 <= j < |all| ==> !LinkedTo(reqs[i].id)(all[j]) by {
      forall j | 0 <= j < |all|
        ensures !LinkedTo(reqs[i].id)(all[j])
      {
        assert all[j] in all;
      }
    }
    Seqs.FilterNone(LinkedTo(reqs[i].id), all);
  }

  function ByCreated(r: ItemRequest): int
  {
    r.created
  }

  function ByRequester(userId: int): ItemRequest -> bool
  {
    (r: ItemRequest) => r.requesterId == userId
  }

  function NotByRequester(userId: int): ItemRequest -> bool
  {
    (r: ItemRequest) => r.requesterId != userId
  }

  /** `findByRequesterId...`: the stored requests of the user. */
  function OwnRequests(requests: Requests, userId: int): (r: seq<ItemRequest>)
    ensures forall q :: q in r <==> q in Stores.FindAll(requests) && q.requesterId == userId
  {
    Seqs.Filter(ByRequester(userId), Stores.FindAll(requests))
  }

  /** `findByRequesterIdIsNot`: the stored requests of everybody else. */
  function OthersRequests(requests: Requests, userId: int): (r: seq<ItemRequest>)
    ensures forall q :: q in r <==> q in Stores.FindAll(requests) && q.requesterId != userId
  {
    Seqs.Filter(NotByRequester(userId), Stores.FindAll(requests))
  }

  /** Every stored request lies in exactly one of a user's two listings, as
      often as it is stored. */
  lemma OwnAndOthersPartition(requests: Requests, userId: int)
    ensures multiset(OwnRequests(requests, userId)) + multiset(OthersRequests(requests, userId))
      == multiset(Stores.FindAll(requests))
    ensures multiset(OwnRequests(requests, userId)) !! multiset(OthersRequests(requests, userId))
  {
    assert forall q :: NotByRequester(userId)(q) <==> !ByRequester(userId)(q);
    Seqs.FilterPartition(ByRequester(userId), NotByRequester(userId), Stores.FindAll(requests));
  }

  /** `getOwn`: `NotFound` for an unknown user; otherwise all of the user's
      requests, newest first, each with its answering items. */
  function GetOwn(users: Users.Users, requests: Requests, items: Items.Items, userId: int)
    : (r: Result<seq<RequestView>>)
    ensures r.Err? <==> userId !in users.rows
    ensures r.Err? ==> r.error == NotFound
    ensures r.Ok? ==> multiset(Unwrap(r.value)) == multiset(OwnRequests(requests, userId))
    ensures r.Ok? ==> Seqs.SortedDesc(Unwrap(r.value), ByCreated)
    ensures r.Ok? ==> forall i :: 0 <= i < |r.value| ==>
      r.value[i].items == ItemsFor(items, r.value[i].request.id)
  {
    match UserService.CheckUserExist(users, userId)
    case Some(e) => Err(e)
    case None =>
      var own := Seqs.SortDesc(OwnRequests(requests, userId), ByCreated);
      Ok(SetItemsToRequestDto(own, items))
  }

  /** `getAll`: `NotFound` for an unknown user; otherwise page `from / size`
      of everybody else's requests, newest first, each with its answering
      items. */
  function GetAll(users: Users.Users, requests: Requests, items: Items.Items, userId: int, from: int, size: int)
    : (r: Result<seq<RequestView>>)
    requires from >= 0 && size >= 1
    ensures r.Err? <==> userId !in users.rows
    ensures r.Err? ==> r.error == NotFound
    ensures r.Ok? ==> |r.value| <= size
    ensures r.Ok? ==> |r.value| == Seqs.PageLength(|OthersRequests(requests, userId)|, Seqs.PageIndex(from, size), size)
    ensures r.Ok? ==> multiset(Unwrap(r.value)) <= multiset(OthersRequests(requests, userId))
    ensures r.Ok? ==> forall i :: 0 <= i < |r.value| ==>
      && r.value[i].request.requesterId != userId
      && r.value[i].request in Stores.FindAll(requests)
    ensures r.Ok? ==> Seqs.SortedDesc(Unwrap(r.value), ByCreated)
    ensures r.Ok? ==> forall i :: 0 <= i < |r.value| ==>
      r.value[i].items == ItemsFor(items, r.value[i].request.id)
  {
    match UserService.CheckUserExist(users, userId)
    case Some(e) => Err(e)
    case None =>
      var others := OthersRequests(requests, userId);
      var page := Seqs.SortedPage(others, ByCreated, Seqs.PageIndex(from, size), size);
      Ok(SetItemsToRequestDto(page, items))
  }

  /** A user never sees their own request in `getAll`, and every other
      user's request reaches the first page when that page is large enough. */
  lemma GetAllFirstPageComplete(users: Users.Users, requests: Requests, items: Items.Items, userId: int, from: int, size: int)
    requires 0 <= from < size
    requires userId in users.rows
    requires |OthersRequests(requests, userId)| <= size
    ensures multiset(Unwrap(GetAll(users, requests, items, userId, from, size).value))
      == multiset(OthersRequests(requests, userId))
  {
    assert Seqs.PageIndex(from, size) == 0;
    Seqs.FirstPageHoldsAll(OthersRequests(requests, userId), ByCreated, size);
  }

  /** Paging on through `getAll`: a later page (a larger `from / size`)
      never repeats a request an earlier page showed, beyond its
      multiplicity, and holds only requests created no later than every
      request on the earlier page. */
  lemma GetAllPagesInOrder(users: Users.Users, requests: Requests, items: Items.Items, userId: int, from: int, from': int, size: int)
    requires userId in users.rows
    requires 0 <= from && 0 <= from' && size >= 1
    requires Seqs.PageIndex(from, size) < Seqs.PageIndex(from', size)
    ensures var a := Unwrap(GetAll(users, requests, items, userId, from, size).value);
      var b := Unwrap(GetAll(users, requests, items, userId, from', size).value);
      && multiset(a) + multiset(b) <= multiset(OthersRequests(requests, userId))
      && forall i, j :: 0 <= i < |a| && 0 <= j < |b| ==> a[i].created >= b[j].created
  {
    var others := OthersRequests(requests, userId);
    var p, q := Seqs.PageIndex(from, size), Seqs.PageIndex(from', size);
    Seqs.PagesDisjoint(others, ByCreated, p, q, size);
    Seqs.PagesInOrder(others, ByCreated, p, q, size);
  }
}
