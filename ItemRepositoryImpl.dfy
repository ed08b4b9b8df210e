/** The in-memory item repository of the first revision: a hash map from id
    to item and a counter that hands out ids. */
module InMemoryItemRepository {
  import opened Common
  import opened Domain
  import opened InMemoryTable
  import opened ItemService

  class ItemRepository {
    var items: map<int, Item>
    var id: int

    /** Every item is stored under its own id. create and update both keep
        this. */
    ghost predicate Keyed()
      reads this
    {
      forall k :: k in items ==> items[k].id == k
    }

    /** Every key was handed out by the counter, so the next id is free. An
        update with an id the counter has not reached breaks this. */
    ghost predicate Issued()
      reads this
    {
      id >= 0 && forall k :: k in items ==> 1 <= k <= id
    }

    constructor ()
      ensures items == map[] && id == 0
      ensures Keyed() && Issued()
    {
      items := map[];
      id := 0;
    }

    /** tempGenerateId: `++id`. */
    method GenerateId() returns (next: int)
      modifies this
      ensures id == old(id) + 1 && next == id
      ensures items == old(items)
    {
      id := id + 1;
      next := id;
    }

    /** create: the item gets the next id and is stored under it. The new id
        is above every stored key, so it collides with none. */
    method Create(item: Item) returns (stored: Item)
      requires Keyed()
      modifies this
      ensures stored == item.(id := old(id) + 1)
      ensures id == old(id) + 1
      ensures items == old(items)[stored.id := stored]
      ensures Keyed()
      ensures old(Issued()) ==> Issued() && forall k :: k in old(items) ==> k < stored.id
    {
      var next := GenerateId();
      stored := item.(id := next);
      items := items[stored.id := stored];
    }

    /** getById: some stored item whose id is `itemId`, or none. */
    function GetById(itemId: int): (r: Option<Item>)
      reads this
      requires Keyed()
      ensures r.Some? <==> exists k :: k in items && items[k].id == itemId
      ensures r.Some? ==> r.value in items.Values && r.value.id == itemId
    {
      if itemId in items then Some(items[itemId]) else None
    }

    /** update: stores the item under its own id, replacing what was there;
        every other entry is unchanged. */
    method Update(item: Item) returns (stored: Item)
      requires Keyed()
      modifies this
      ensures stored == item
      ensures items == old(items)[item.id := item] && id == old(id)
      ensures Keyed()
      ensures old(Issued()) && 1 <= item.id <= id ==> Issued()
    {
      items := items[item.id := item];
      stored := item;
    }

    /** getByOwner: every stored item of the owner, each once, in the map's
        iteration order. */
    method GetByOwner(ownerId: int) returns (r: seq<Item>)
      requires Keyed()
      ensures forall x :: x in r <==> x in items.Values && x.ownerId == ownerId
      ensures forall i, j :: 0 <= i < j < |r| ==> r[i].id != r[j].id
    {
      ghost var keys;
      r, keys := CollectValues(items, (i: Item) => i.ownerId == ownerId);
      CollectedExactly(items, (i: Item) => i.ownerId == ownerId, r, keys);
    }

    /** search: every stored available item whose lower-cased name or
        description contains the lower-cased text, each once. The map is not
        changed. */
    method Search(text: string) returns (r: seq<Item>)
      requires Keyed()
      ensures forall x :: x in r <==> x in items.Values && Matches(x, text)
      ensures forall i, j :: 0 <= i < j < |r| ==> r[i].id != r[j].id
    {
      ghost var keys;
      r, keys := CollectValues(items, (i: Item) => Matches(i, text));
      CollectedExactly(items, (i: Item) => Matches(i, text), r, keys);
    }
  }

  /** A freshly created item is found again by its id. */
  method CreateThenGet(repo: ItemRepository, item: Item) returns (found: Option<Item>)
    requires repo.Keyed()
    modifies repo
    ensures repo.Keyed()
    ensures found.Some? && found.value.id == old(repo.id) + 1
    ensures found.value == item.(id := found.value.id)
  {
    var stored := repo.Create(item);
    found := repo.GetById(stored.id);
  }
}
