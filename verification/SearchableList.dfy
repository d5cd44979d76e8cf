/**
 The two-index list behind clusters, commands and attributes: items in insertion order,
 an index by id and an index by name.
 */
module SearchableList {
  import opened Bytes

  datatype Item<Id(==), Name(==), Data> = Item(id: Id, name: Name, data: Data)

  /** Reference meaning of the id index: a linear search. */
  function SearchId<Id(==), Name(==), Data>(items: seq<Item<Id, Name, Data>>, id: Id): (r: Option<Item<Id, Name, Data>>)
    ensures r.Some? ==> r.value in items && r.value.id == id
    ensures r.None? ==> forall x | x in items :: x.id != id
  {
    if items == [] then None
    else if items[0].id == id then Some(items[0])
    else SearchId(items[1..], id)
  }

  function SearchName<Id(==), Name(==), Data>(items: seq<Item<Id, Name, Data>>, name: Name)
    : (r: Option<Item<Id, Name, Data>>)
    ensures r.Some? ==> r.value in items && r.value.name == name
    ensures r.None? ==> forall x | x in items :: x.name != name
  {
    if items == [] then None
    else if items[0].name == name then Some(items[0])
    else SearchName(items[1..], name)
  }

  ghost predicate Distinct<Id, Name, Data>(items: seq<Item<Id, Name, Data>>) {
    forall i, j | 0 <= i < j < |items| :: items[i].id != items[j].id && items[i].name != items[j].name
  }

  /** Looking an id up and looking the found name up are inverse to each other. */
  lemma LookupsAreInverse<Id, Name, Data>(items: seq<Item<Id, Name, Data>>, x: Item<Id, Name, Data>)
    requires Distinct(items)
    ensures SearchId(items, x.id) == Some(x) <==> x in items
    ensures SearchName(items, x.name) == Some(x) <==> x in items
  {
    if x in items {
      var k :| 0 <= k < |items| && items[k] == x;
      var a, b := SearchId(items, x.id).value, SearchName(items, x.name).value;
      var i :| 0 <= i < |items| && items[i] == a;
      var j :| 0 <= j < |items| && items[j] == b;
    }
  }

  /** What one call of Add leaves: duplicates by id or by name are rejected. */
  function Added<Id(==), Name(==), Data>(items: seq<Item<Id, Name, Data>>, x: Item<Id, Name, Data>)
    : seq<Item<Id, Name, Data>>
  {
    if SearchId(items, x.id).Some? || SearchName(items, x.name).Some? then items else items + [x]
  }

  function AddedAll<Id(==), Name(==), Data>(items: seq<Item<Id, Name, Data>>, xs: seq<Item<Id, Name, Data>>)
    : seq<Item<Id, Name, Data>>
    decreases |xs|
  {
    if xs == [] then items else AddedAll(Added(items, xs[0]), xs[1..])
  }

  /** Over any sequence of Adds: ids and names stay unique, nothing stored is lost or
      reordered, and an item is refused only for a clash with something stored. */
  lemma {:induction false} AddedAllKeepsIndexes<Id, Name, Data>(
      items: seq<Item<Id, Name, Data>>, xs: seq<Item<Id, Name, Data>>)
    requires Distinct(items)
    decreases |xs|
    ensures Distinct(AddedAll(items, xs))
    ensures items <= AddedAll(items, xs)
    ensures forall x | x in AddedAll(items, xs) :: x in items || x in xs
    ensures forall x | x in xs ::
      SearchId(AddedAll(items, xs), x.id).Some? || SearchName(AddedAll(items, xs), x.name).Some?
  {
    if xs != [] {
      var next := Added(items, xs[0]);
      assert Distinct(next);
      AddedAllKeepsIndexes(next, xs[1..]);
      var all := AddedAll(items, xs);
      forall x | x in xs
        ensures SearchId(all, x.id).Some? || SearchName(all, x.name).Some?
      {
        if x == xs[0] {
          assert exists y :: y in next && (y.id == x.id || y.name == x.name) by {
            if next == items {
              var hit := if SearchId(items, x.id).Some? then SearchId(items, x.id).value
                else SearchName(items, x.name).value;
              assert hit in next;
            } else {
              assert next[|items|] == x;
            }
          }
          var y :| y in next && (y.id == x.id || y.name == x.name);
          var k :| 0 <= k < |next| && next[k] == y;
          assert all[k] == y;
        } else {
          assert x in xs[1..];
        }
      }
    }
  }

  /** Both indexes cover the items exactly, and each entry points at its own item. */
  ghost predicate Indexed<Id, Name, Data>(
      items: seq<Item<Id, Name, Data>>, byId: map<Id, nat>, byName: map<Name, nat>)
  {
    && Distinct(items)
    && (forall id | id in byId :: byId[id] < |items| && items[byId[id]].id == id)
    && (forall name | name in byName :: byName[name] < |items| && items[byName[name]].name == name)
    && (forall x | x in items :: x.id in byId && x.name in byName)
  }

  lemma IndexesAgree<Id, Name, Data>(items: seq<Item<Id, Name, Data>>, byId: map<Id, nat>, byName: map<Name, nat>,
      id: Id, name: Name)
    requires Indexed(items, byId, byName)
    ensures id in byId <==> SearchId(items, id).Some?
    ensures name in byName <==> SearchName(items, name).Some?
  {
    hide Distinct;
    if id in byId {
      assert items[byId[id]] in items;
    }
    if name in byName {
      assert items[byName[name]] in items;
    }
  }

  lemma IndexedAfterAdd<Id, Name, Data>(items: seq<Item<Id, Name, Data>>, byId: map<Id, nat>, byName: map<Name, nat>,
      x: Item<Id, Name, Data>)
    requires Indexed(items, byId, byName) && x.id !in byId && x.name !in byName
    ensures Indexed(items + [x], byId[x.id := |items|], byName[x.name := |items|])
  {
  }

  class SearchableList<Id(==), Name(==), Data> {
    var items: seq<Item<Id, Name, Data>>
    // Position of the item each index entry points at.
    var byId: map<Id, nat>
    var byName: map<Name, nat>

    ghost predicate Valid()
      reads this
    {
      Indexed(items, byId, byName)
    }

    constructor ()
      ensures Valid() && items == []
    {
      items, byId, byName := [], map[], map[];
    }

    method Add(item: Item<Id, Name, Data>) returns (added: bool)
      requires Valid()
      modifies this
      ensures Valid()
      ensures added <==> SearchId(old(items), item.id).None? && SearchName(old(items), item.name).None?
      ensures items == Added(old(items), item)
      ensures !added ==> unchanged(this)
    {
      IndexesAgree(items, byId, byName, item.id, item.name);
      if item.id in byId {
        return false;
      }
      if item.name in byName {
        return false;
      }
      IndexedAfterAdd(items, byId, byName, item);
      items := items + [item];
      byId := byId[item.id := |items| - 1];
      byName := byName[item.name := |items| - 1];
      return true;
    }

    method FindByName(name: Name) returns (r: Option<Item<Id, Name, Data>>)
      requires Valid()
      ensures r == SearchName(items, name)
    {
      if name !in byName {
        return None;
      }
      LookupsAreInverse(items, items[byName[name]]);
      return Some(items[byName[name]]);
    }

    method FindById(id: Id) returns (r: Option<Item<Id, Name, Data>>)
      requires Valid()
      ensures r == SearchId(items, id)
    {
      if id !in byId {
        return None;
      }
      LookupsAreInverse(items, items[byId[id]]);
      return Some(items[byId[id]]);
    }
  }
}
