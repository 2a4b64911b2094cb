/** Arrays of keyed records, the shape in which one JSON document holds a map: lookup by
    scanning, replacement in place, push and splice
    (langs/typescript/src/local-storage.mjs:46-67). */
module AssocArray {
  datatype Item<K, V> = Item(key: K, value: V)

  ghost predicate Unique<K, V>(items: seq<Item<K, V>>) {
    forall i, j :: 0 <= i < j < |items| ==> items[i].key != items[j].key
  }

  /** The map an array stands for. */
  ghost function MapOf<K, V>(items: seq<Item<K, V>>): map<K, V> {
    if items == [] then map[]
    else
      var last := items[|items| - 1];
      MapOf(items[..|items| - 1])[last.key := last.value]
  }

  lemma {:induction false} EntryAt<K, V>(items: seq<Item<K, V>>, i: nat)
    requires Unique(items) && i < |items|
    ensures items[i].key in MapOf(items) && MapOf(items)[items[i].key] == items[i].value
  {
    var last := |items| - 1;
    if i < last {
      EntryAt(items[..last], i);
    }
  }

  lemma {:induction false} EntryOf<K, V>(items: seq<Item<K, V>>, k: K)
    ensures k in MapOf(items) ==> Item(k, MapOf(items)[k]) in items
  {
    if items != [] {
      var last := |items| - 1;
      if k != items[last].key {
        EntryOf(items[..last], k);
      }
    }
  }

  lemma {:induction false} Push<K, V>(items: seq<Item<K, V>>, item: Item<K, V>)
    requires Unique(items) && item.key !in MapOf(items)
    ensures Unique(items + [item]) && MapOf(items + [item]) == MapOf(items)[item.key := item.value]
  {
    forall i | 0 <= i < |items| ensures items[i].key != item.key {
      EntryAt(items, i);
    }
    assert (items + [item])[..|items|] == items;
  }

  lemma {:induction false} Replace<K, V>(items: seq<Item<K, V>>, i: nat, item: Item<K, V>)
    requires Unique(items) && i < |items| && items[i].key == item.key
    ensures Unique(items[i := item]) && MapOf(items[i := item]) == MapOf(items)[item.key := item.value]
  {
    var last := |items| - 1;
    var before := items[..last];
    if i < last {
      Replace(before, i, item);
      assert items[i := item][..last] == before[i := item];
    } else {
      assert items[i := item][..last] == before;
    }
  }

  lemma {:induction false} Splice<K, V>(items: seq<Item<K, V>>, i: nat)
    requires Unique(items) && i < |items|
    ensures Unique(items[..i] + items[i + 1..])
    ensures MapOf(items[..i] + items[i + 1..]) == MapOf(items) - {items[i].key}
  {
    var last := |items| - 1;
    var before := items[..last];
    EntryOf(before, items[last].key);
    if i < last {
      Splice(before, i);
      assert items[..i] + items[i + 1..] == before[..i] + before[i + 1..] + [items[last]];
      Appended(before[..i] + before[i + 1..], items[last]);
    } else {
      assert items[..i] + items[i + 1..] == before;
    }
  }

  lemma {:induction false} Appended<K, V>(items: seq<Item<K, V>>, item: Item<K, V>)
    ensures MapOf(items + [item]) == MapOf(items)[item.key := item.value]
  {
    assert (items + [item])[..|items|] == items;
  }

  /** `findIndex`: the position of the key, or -1. */
  method IndexOf<K(==), V>(items: seq<Item<K, V>>, k: K) returns (index: int)
    requires Unique(items)
    ensures -1 <= index < |items|
    ensures 0 <= index <==> k in MapOf(items)
    ensures 0 <= index ==> items[index].key == k && MapOf(items)[k] == items[index].value
  {
    for i := 0 to |items|
      invariant forall j :: 0 <= j < i ==> items[j].key != k
    {
      if items[i].key == k {
        EntryAt(items, i);
        return i;
      }
    }
    EntryOf(items, k);
    return -1;
  }

  /** Replace the record in place when the key is present, push it otherwise. */
  method PutItem<K(==), V>(items: seq<Item<K, V>>, k: K, value: V) returns (items': seq<Item<K, V>>)
    requires Unique(items)
    ensures Unique(items') && MapOf(items') == MapOf(items)[k := value]
  {
    var index := IndexOf(items, k);
    if index < 0 {
      items' := items + [Item(k, value)];
      Push(items, Item(k, value));
    } else {
      items' := items[index := Item(k, value)];
      Replace(items, index, Item(k, value));
    }
  }

  /** `splice(index, 1)` when the key is present. */
  method DeleteItem<K(==), V>(items: seq<Item<K, V>>, k: K) returns (items': seq<Item<K, V>>)
    requires Unique(items)
    ensures Unique(items') && MapOf(items') == MapOf(items) - {k}
  {
    var index := IndexOf(items, k);
    items' := items;
    if index >= 0 {
      items' := items[..index] + items[index + 1..];
      Splice(items, index);
    }
  }
}
