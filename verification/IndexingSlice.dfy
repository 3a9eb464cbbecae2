/** The slice with a key index of util/collection/indexing_slice.go. */
module IndexingSlice {
  import opened Basics

  /** An item and the key it reports. */
  datatype Item<T> = Item(key: string, payload: T)

  type Index = map<string, nat>

  /** The index holds exactly the items' keys, each with the place of its item. */
  ghost predicate Agree<T>(items: seq<Item<T>>, index: Index) {
    && (forall i :: 0 <= i < |items| ==> items[i].key in index && index[items[i].key] == i)
    && (forall k :: k in index ==> index[k] < |items| && items[index[k]].key == k)
  }

  /** The slice as a map from keys to items. */
  function AsMap<T>(items: seq<Item<T>>, index: Index): map<string, Item<T>> {
    map k | k in index && index[k] < |items| :: items[index[k]]
  }

  // ---------------------------------------------------------------- the two operations, on values

  function AddItem<T>(items: seq<Item<T>>, index: Index, value: Item<T>): (seq<Item<T>>, Index) {
    if value.key in index then (items, index) else (items + [value], index[value.key := |items|])
  }

  /** Swap-delete: the last item takes the place of the deleted one. */
  function DeleteKey<T>(items: seq<Item<T>>, index: Index, key: string): (seq<Item<T>>, Index)
    requires Agree(items, index)
  {
    if key !in index then (items, index)
    else
      var i, last := index[key], |items| - 1;
      if i < last then (items[i := items[last]][..last], (index - {key})[items[last].key := i])
      else (items[..last], index - {key})
  }

  lemma AddAgrees<T>(items: seq<Item<T>>, index: Index, value: Item<T>)
    requires Agree(items, index)
    ensures var r := AddItem(items, index, value);
      && Agree(r.0, r.1)
      && AsMap(r.0, r.1) ==
         if value.key in AsMap(items, index) then AsMap(items, index) else AsMap(items, index)[value.key := value]
  {}

  /** Every earlier item keeps its place, and a new one goes behind them all; a key that is there is left alone. */
  lemma AddKeepsPlaces<T>(items: seq<Item<T>>, index: Index, value: Item<T>, i: nat)
    requires Agree(items, index)
    ensures var after := AddItem(items, index, value).0;
      var known := exists j :: 0 <= j < |items| && items[j].key == value.key;
      && |after| == |items| + (if known then 0 else 1)
      && (i < |items| ==> after[i] == items[i])
      && (!known ==> after[|items|] == value)
  {
    if value.key in index {
      assert items[index[value.key]].key == value.key;
    }
  }

  lemma DeleteKeepsBijection<T>(items: seq<Item<T>>, index: Index, key: string)
    requires Agree(items, index)
    ensures Agree(DeleteKey(items, index, key).0, DeleteKey(items, index, key).1)
  {}

  lemma DeleteFinds<T>(items: seq<Item<T>>, index: Index, key: string, k: string)
    requires Agree(items, index)
    ensures var r := DeleteKey(items, index, key);
      && (k in r.1 <==> k in index && k != key)
      && (k in r.1 ==> r.1[k] < |r.0| && r.0[r.1[k]] == items[index[k]])
  {}

  /** Deleting keeps the bijection, removes the key and nothing else from the map, and moves only the last item. */
  lemma DeleteAgrees<T>(items: seq<Item<T>>, index: Index, key: string)
    requires Agree(items, index)
    ensures var r := DeleteKey(items, index, key);
      && Agree(r.0, r.1)
      && AsMap(r.0, r.1) == AsMap(items, index) - {key}
  {
    hide Agree, DeleteKey;
    var r := DeleteKey(items, index, key);
    DeleteKeepsBijection(items, index, key);
    InsideIs(items, index);
    forall k: string
      ensures k in AsMap(r.0, r.1) <==> k in AsMap(items, index) && k != key
      ensures k in AsMap(r.0, r.1) ==> AsMap(r.0, r.1)[k] == AsMap(items, index)[k]
    {
      DeleteFinds(items, index, key, k);
    }
  }

  lemma InsideIs<T>(items: seq<Item<T>>, index: Index)
    requires Agree(items, index)
    ensures forall k :: k in index ==> index[k] < |items|
  {}

  /** A deletion moves nothing but the last item, and that one into the place that came free. */
  lemma DeleteMovesOnlyTheLast<T>(items: seq<Item<T>>, index: Index, key: string, i: nat)
    requires Agree(items, index) && i < |DeleteKey(items, index, key).0|
    ensures var after := DeleteKey(items, index, key).0;
      && |after| == (if key in index then |items| - 1 else |items|)
      && after[i] == if key in index && i == index[key] then items[|items| - 1] else items[i]
  {}

  // ---------------------------------------------------------------- runs of operations

  datatype Op<T> = Add(value: Item<T>) | Delete(key: string)

  function Run<T>(ops: seq<Op<T>>): (r: (seq<Item<T>>, Index))
    ensures Agree(r.0, r.1)
  {
    if ops == [] then ([], map[])
    else
      var r := Run(ops[..|ops| - 1]);
      match ops[|ops| - 1]
      case Add(value) => AddAgrees(r.0, r.1, value); AddItem(r.0, r.1, value)
      case Delete(key) => DeleteAgrees(r.0, r.1, key); DeleteKey(r.0, r.1, key)
  }

  /** The same run on a map: Add keeps what is there, Delete removes the key. */
  function RunOnMap<T>(ops: seq<Op<T>>): map<string, Item<T>> {
    if ops == [] then map[]
    else
      var m := RunOnMap(ops[..|ops| - 1]);
      match ops[|ops| - 1]
      case Add(value) => if value.key in m then m else m[value.key := value]
      case Delete(key) => m - {key}
  }

  /** Over every run of Add and Delete the indexed slice is a key-to-item map. */
  lemma {:induction false} RunRefinesMap<T>(ops: seq<Op<T>>)
    ensures AsMap(Run(ops).0, Run(ops).1) == RunOnMap(ops)
  {
    hide Agree, AsMap, AddItem, DeleteKey;
    if ops == [] {
      EmptyMap<T>();
    } else {
      var init := ops[..|ops| - 1];
      var r := Run(init);
      RunRefinesMap(init);
      match ops[|ops| - 1] {
        case Add(value) => AddAgrees(r.0, r.1, value);
        case Delete(key) => DeleteAgrees(r.0, r.1, key);
      }
    }
  }

  lemma EmptyMap<T>()
    ensures AsMap<T>([], map[]) == map[]
  {}

  // ---------------------------------------------------------------- the code

  class IndexingSlice<T> {
    var items: seq<Item<T>>
    var index: Index

    ghost predicate Valid()
      reads this
    {
      Agree(items, index)
    }

    constructor ()
      ensures Valid() && items == [] && index == map[]
    {
      items, index := [], map[];
    }

    method GetByIndex(idx: nat) returns (item: Option<Item<T>>)
      ensures item == if idx < |items| then Some(items[idx]) else None
    {
      if idx >= |items| {
        return None;
      }
      return Some(items[idx]);
    }

    method GetByKey(key: string) returns (item: Option<Item<T>>)
      requires Valid()
      ensures item == if key in AsMap(items, index) then Some(AsMap(items, index)[key]) else None
      ensures item.Some? ==> item.value.key == key && item.value in items
      ensures item == None ==> forall i :: 0 <= i < |items| ==> items[i].key != key
    {
      if key !in index {
        return None;
      }
      return Some(items[index[key]]);
    }

    method Add(value: Item<T>) returns (added: bool)
      requires Valid()
      modifies this
      ensures Valid() && (items, index) == AddItem(old(items), old(index), value)
      ensures items == if added then old(items) + [value] else old(items)
      ensures added == (value.key !in old(index))
    {
      hide Agree, AsMap;
      AddAgrees(items, index, value);
      if value.key in index {
        return false;
      }
      items := items + [value];
      index := index[value.key := |items| - 1];
      return true;
    }

    method Delete(key: string)
      requires Valid()
      modifies this
      ensures Valid() && (items, index) == DeleteKey(old(items), old(index), key)
    {
      hide Agree, AsMap;
      DeleteAgrees(items, index, key);
      InsideIs(items, index);
      if key !in index {
        return;
      }
      var idx := index[key];
      index := index - {key};
      var maxIdx := |items| - 1;
      if idx < maxIdx {
        var last := items[maxIdx];
        items := items[idx := last];
        index := index[last.key := idx];
      }
      items := items[..maxIdx];
    }
  }
}
