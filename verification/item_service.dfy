/** The item service: owner-stamped creation, owner-only partial update,
    lookup, the owner's listing and the case-insensitive text search. */
module ItemService {
  import opened Outcomes
  import opened Entities
  import Seqs
  import Text
  import Users = UserRepository
  import Repo = ItemRepository

  /** The body of a create request once the gateway has checked it. The
      request link is not copied onto the entity. */
  datatype NewItem = NewItem(name: string, description: string, available: Option<bool>)

  /** The body of a patch request: `null` fields are left as they are. */
  datatype ItemPatch = ItemPatch(
    id: int,
    name: Option<string>,
    description: Option<string>,
    available: Option<bool>)

  /** `createItem`: `NotFound` and nothing saved for an unknown user;
      otherwise the item is saved with that user as its owner. */
  function CreateItem(users: Users.Users, items: Repo.Items, dto: NewItem, userId: int)
    : (o: Outcome<Repo.Items, Item>)
    ensures o.result.Err? <==> userId !in users.rows
    ensures o.result.Err? ==> o.result.error == NotFound && o.state == items
    ensures o.result.Ok? ==>
      && o.result.value.ownerId == users.rows[userId].id
      && o.result.value.name == dto.name
      && o.result.value.description == dto.description
      && o.result.value.available == dto.available
      && o.result.value.requestId == None
      && Repo.FindById(o.state, o.result.value.id) == Some(o.result.value)
    ensures o.result.Ok? ==> forall k :: k != o.result.value.id ==> Repo.FindById(o.state, k) == Repo.FindById(items, k)
    ensures o.result.Ok? && Users.Keyed(users) ==> o.result.value.ownerId == userId
    ensures o.result.Ok? && Repo.Keyed(items) ==> Repo.Keyed(o.state) && o.result.value.id !in items.rows
  {
    match Users.FindById(users, userId)
    case None => Outcome(items, Err(NotFound))
    case Some(user) =>
      var (items', saved) := Repo.Save(items, Item(0, dto.name, dto.description, dto.available, user.id, None));
      Outcome(items', Ok(saved))
  }

  /** The service's own null-ignoring copy in `patchItem`: each non-null
      field of the patch replaces the item's, and id, owner and request link
      are kept. */
  function ApplyPatch(it: Item, patch: ItemPatch): Item
  {
    it.(
      name := if patch.name.Some? then patch.name.value else it.name,
      description := if patch.description.Some? then patch.description.value else it.description,
      available := if patch.available.Some? then patch.available else it.available)
  }

  /** A patch changes exactly the fields it carries: applying it twice is
      applying it once, an empty patch changes nothing, the identity fields
      never change, and every `null` field keeps its old value. */
  lemma PatchSemantics(it: Item, patch: ItemPatch)
    ensures ApplyPatch(ApplyPatch(it, patch), patch) == ApplyPatch(it, patch)
    ensures patch.name.None? && patch.description.None? && patch.available.None? ==> ApplyPatch(it, patch) == it
    ensures ApplyPatch(it, patch).id == it.id
    ensures ApplyPatch(it, patch).ownerId == it.ownerId
    ensures ApplyPatch(it, patch).requestId == it.requestId
    ensures ApplyPatch(it, patch).name == (if patch.name.Some? then patch.name.value else it.name)
    ensures ApplyPatch(it, patch).description == (if patch.description.Some? then patch.description.value else it.description)
    ensures ApplyPatch(it, patch).available == (if patch.available.Some? then patch.available else it.available)
  {
  }

  /** The item exists and `userId` owns it. */
  predicate OwnsItem(items: Repo.Items, id: int, userId: int)
  {
    id in items.rows && items.rows[id].ownerId == userId
  }

  /** `patchItem`: `NotFound` for a missing item, `Authorization` for anyone
      but its owner (and the store is untouched in both cases); otherwise the
      patched item is written back under its own id. */
  function PatchItem(items: Repo.Items, patch: ItemPatch, userId: int): (o: Outcome<Repo.Items, Item>)
    ensures patch.id !in items.rows <==> o.result == Err(NotFound)
    ensures patch.id in items.rows && !OwnsItem(items, patch.id, userId) <==> o.result == Err(Authorization)
    ensures o.result.Ok? <==> OwnsItem(items, patch.id, userId)
    ensures o.result.Err? ==> o.state == items
    ensures o.result.Ok? ==>
      && o.result.value == ApplyPatch(items.rows[patch.id], patch)
      && Repo.FindById(o.state, items.rows[patch.id].id) == Some(o.result.value)
      && forall k :: k != items.rows[patch.id].id ==> Repo.FindById(o.state, k) == Repo.FindById(items, k)
    ensures o.result.Ok? && Repo.Keyed(items) ==> Repo.FindById(o.state, patch.id) == Some(o.result.value)
    ensures Repo.Keyed(items) ==> Repo.Keyed(o.state)
  {
    match Repo.FindById(items, patch.id)
    case None => Outcome(items, Err(NotFound))
    case Some(found) =>
      if found.ownerId != userId then Outcome(items, Err(Authorization))
      else
        var (items', updated) := Repo.Update(items, ApplyPatch(found, patch));
        Outcome(items', Ok(updated))
  }

  /** `getItemById`: the stored item, or `NotFound`. */
  function GetItemById(items: Repo.Items, id: int): (r: Result<Item>)
    ensures r.Ok? <==> id in items.rows
    ensures r.Ok? ==> r.value == items.rows[id]
    ensures r.Err? ==> r.error == NotFound
  {
    match Repo.FindById(items, id)
    case None => Err(NotFound)
    case Some(it) => Ok(it)
  }

  function OwnedBy(userId: int): Item -> bool
  {
    (it: Item) => it.ownerId == userId
  }

  /** `getItemsByUserId`: exactly the stored items of that owner, each as
      often as it is stored. */
  function GetItemsByUserId(items: Repo.Items, userId: int): (r: seq<Item>)
    ensures forall i :: 0 <= i < |r| ==> r[i].ownerId == userId
    ensures forall it :: it in r <==> it in Repo.FindAll(items) && it.ownerId == userId
    ensures forall it :: multiset(r)[it] == if it.ownerId == userId then multiset(Repo.FindAll(items))[it] else 0
    ensures Seqs.Subsequence(r, Repo.FindAll(items))
  {
    Seqs.FilterCounts(OwnedBy(userId), Repo.FindAll(items));
    Seqs.FilterKeepsOrder(OwnedBy(userId), Repo.FindAll(items));
    Seqs.Filter(OwnedBy(userId), Repo.FindAll(items))
  }

  /** An owner's listing is exactly the stored items whose owner is that
      user, and the listings of two different users share no item. */
  lemma OwnerListingsPartition(items: Repo.Items, a: int, b: int, it: Item)
    ensures it in GetItemsByUserId(items, a) <==> exists k :: k in items.rows && items.rows[k] == it && it.ownerId == a
    ensures a != b ==> !(it in GetItemsByUserId(items, a) && it in GetItemsByUserId(items, b))
  {
    Repo.FindAllStoredItems(items, it);
  }

  /** The search condition for one item: explicitly available, and the text
      occurs in the description or the name, ignoring case. */
  predicate Matches(it: Item, text: string, fold: char -> char)
  {
    && it.available == Some(true)
    && (Text.ContainsIgnoreCase(it.description, text, fold) || Text.ContainsIgnoreCase(it.name, text, fold))
  }

  function Matcher(text: string, fold: char -> char): Item -> bool
  {
    (it: Item) => Matches(it, text, fold)
  }

  /** The reference answer of a search: nothing for blank text, otherwise the
      matching items in `findAll` order. */
  function SearchResult(items: Repo.Items, text: string, fold: char -> char): (r: seq<Item>)
    ensures Text.Blank(text) ==> r == []
    ensures forall it :: it in r <==> !Text.Blank(text) && it in Repo.FindAll(items) && Matches(it, text, fold)
    ensures Seqs.Subsequence(r, Repo.FindAll(items))
  {
    if Text.Blank(text) then []
    else
      Seqs.FilterKeepsOrder(Matcher(text, fold), Repo.FindAll(items));
      Seqs.Filter(Matcher(text, fold), Repo.FindAll(items))
  }

  /** The loop of `searchItems`: one pass over the items, keeping those the
      test accepts, in order. */
  method CollectMatches(all: seq<Item>, matches: Item -> bool) returns (found: seq<Item>)
    ensures found == Seqs.Filter(matches, all)
  {
    found := [];
    var i := 0;
    while i < |all|
      invariant 0 <= i <= |all|
      invariant found == Seqs.Filter(matches, all[..i])
    {
      Seqs.FilterStep(matches, all, i);
      if matches(all[i]) {
        found := found + [all[i]];
      }
      i := i + 1;
    }
    assert all[..i] == all;
  }

  /** `searchItems`: nothing for blank text, otherwise one pass over
      `findAll` keeping the matches in order. */
  method SearchItems(items: Repo.Items, text: string, fold: char -> char) returns (found: seq<Item>)
    ensures found == SearchResult(items, text, fold)
  {
    if Text.Blank(text) {
      return [];
    }
    found := CollectMatches(Repo.FindAll(items), Matcher(text, fold));
  }

  /** Every search hit is explicitly available, so an item whose flag is
      `false` or `null` is never found; and a hit contains the text in its
      description or its name. */
  lemma SearchFindsOnlyAvailable(items: Repo.Items, text: string, fold: char -> char, it: Item)
    ensures it in SearchResult(items, text, fold) ==> it.available == Some(true) && !Text.Blank(text)
    ensures it in SearchResult(items, text, fold) ==>
      Text.ContainsIgnoreCase(it.description, text, fold) || Text.ContainsIgnoreCase(it.name, text, fold)
    ensures it.available != Some(true) ==> it !in SearchResult(items, text, fold)
  {
  }
}
