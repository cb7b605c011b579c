/** The in-memory item repository: a map from id to item plus a counter that
    `save` increments before stamping the new item. */
module ItemRepository {
  import opened Outcomes
  import opened Entities
  import Stores

  type Items = Stores.Store<Item>

  /** Every key was handed out by the counter and is the id of the item
      stored under it. */
  ghost predicate Keyed(s: Items)
  {
    && Stores.Valid(s)
    && forall k :: k in s.rows ==> s.rows[k].id == k
  }

  /** `findById`: the item stored under `id`, if any. */
  function FindById(s: Items, id: int): (r: Option<Item>)
    ensures r.Some? <==> id in s.rows
    ensures r.Some? ==> r.value == s.rows[id]
  {
    Stores.Find(s, id)
  }

  /** `save`: stamps `++currentID` on the item and stores it under that id. */
  function Save(s: Items, it: Item): (r: (Items, Item))
    ensures r.1 == it.(id := r.1.id)
    ensures r.1.id == s.counter + 1 == r.0.counter
    ensures FindById(r.0, r.1.id) == Some(r.1)
    ensures forall k :: k != r.1.id ==> FindById(r.0, k) == FindById(s, k)
    ensures Keyed(s) ==> Keyed(r.0) && FindById(s, r.1.id) == None
  {
    var saved := it.(id := Stores.NextId(s));
    (Stores.Insert(s, saved), saved)
  }

  /** `update`: overwrites only the entry at the item's own id. */
  function Update(s: Items, it: Item): (r: (Items, Item))
    ensures r.1 == it
    ensures FindById(r.0, it.id) == Some(it)
    ensures forall k :: k != it.id ==> FindById(r.0, k) == FindById(s, k)
    ensures r.0.counter == s.counter
    ensures Keyed(s) && it.id in s.rows ==> Keyed(r.0)
  {
    (Stores.Put(s, it.id, it), it)
  }

  function FindAll(s: Items): seq<Item>
  {
    Stores.FindAll(s)
  }

  /** `findAll` lists exactly the stored items, one element per stored id. */
  lemma FindAllStoredItems(s: Items, it: Item)
    ensures |FindAll(s)| == |s.rows|
    ensures it in FindAll(s) <==> exists k :: k in s.rows && s.rows[k] == it
  {
    Stores.FindAllExact(s, it);
  }

  /** Ids handed out by successive saves strictly increase. */
  lemma SavesIncrease(s: Items, a: Item, b: Item)
    ensures Save(s, a).1.id < Save(Save(s, a).0, b).1.id
  {
  }
}
