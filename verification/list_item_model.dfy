/**
 The persisted data model: `ListItem` (one checklist entry) and
 `ListItemModel` (a named list owning its entries). Dates are integer
 timestamps, the `UUID` is an `id` supplied by the caller, and `Date.now`
 is a `start` argument.
 */
module ListItemModel {
  import opened Optional

  type Timestamp = int

  /** `ListItem`: an entry's text and whether it is checked off. */
  datatype Item = Item(name: string, completed: bool)

  /**
   `ListItemModel`. The `items` are held by value, so a list owns its entries
   exclusively: they exist only inside it (the cascade delete rule).
   */
  datatype ListRecord = ListRecord(
    id: nat,
    name: string,
    start: Timestamp,
    end: Option<Timestamp>,
    items: seq<Item>)

  /** No key occurs twice in `order`. */
  predicate NoDuplicates(order: seq<string>) {
    forall i, j :: 0 <= i < j < |order| ==> order[i] != order[j]
  }

  /** `order` lists every key of `dict` exactly once: one possible iteration order of the dictionary. */
  predicate EnumeratesKeys(order: seq<string>, dict: map<string, bool>) {
    && NoDuplicates(order)
    && (forall k :: k in order ==> k in dict)
    && (forall k :: k in dict ==> k in order)
  }

  function ItemsInOrder(order: seq<string>, dict: map<string, bool>): seq<Item>
    requires forall k :: k in order ==> k in dict
  {
    if |order| == 0 then [] else [Item(order[0], dict[order[0]])] + ItemsInOrder(order[1..], dict)
  }

  lemma {:induction false} ItemsInOrderAt(order: seq<string>, dict: map<string, bool>)
    requires forall k :: k in order ==> k in dict
    ensures |ItemsInOrder(order, dict)| == |order|
    ensures forall i :: 0 <= i < |order| ==> ItemsInOrder(order, dict)[i] == Item(order[i], dict[order[i]])
    decreases |order|
  {
    if |order| > 0 {
      ItemsInOrderAt(order[1..], dict);
    }
  }

  lemma {:induction false} DistinctCardinality(order: seq<string>)
    requires NoDuplicates(order)
    ensures |set k | k in order| == |order|
    decreases |order|
  {
    if |order| > 0 {
      DistinctCardinality(order[1..]);
      assert (set k | k in order) == {order[0]} + (set k | k in order[1..]);
      assert order[0] !in order[1..];
    }
  }

  /**
   `init(_:dict:start:end:)`: one item per dictionary entry, carrying the
   entry's key and value. The order is the dictionary's iteration order,
   which Swift leaves unspecified; here it is the argument `order`.
   */
  function NewFromDict(id: nat, name: string, dict: map<string, bool>, order: seq<string>,
                       start: Timestamp, end: Option<Timestamp> := None): (r: ListRecord)
    requires EnumeratesKeys(order, dict)
    ensures r.id == id && r.name == name && r.start == start && r.end == end
    ensures |r.items| == |dict|
    ensures forall i :: 0 <= i < |r.items| ==> r.items[i].name in dict && r.items[i].completed == dict[r.items[i].name]
    ensures forall k :: k in dict ==> exists i :: 0 <= i < |r.items| && r.items[i].name == k
    ensures forall i, j :: 0 <= i < j < |r.items| ==> r.items[i].name != r.items[j].name
    ensures |r.items| == |order| && forall i :: 0 <= i < |order| ==> r.items[i].name == order[i]
  {
    ItemsInOrderAt(order, dict);
    DistinctCardinality(order);
    assert (set k | k in order) == dict.Keys;
    var items := ItemsInOrder(order, dict);
    assert forall k :: k in dict ==> exists i :: 0 <= i < |order| && order[i] == k && items[i].name == k;
    ListRecord(id, name, start, end, items)
  }

  function Zip(names: seq<string>, states: seq<bool>): seq<Item> {
    if |names| == 0 || |states| == 0 then []
    else [Item(names[0], states[0])] + Zip(names[1..], states[1..])
  }

  lemma {:induction false} ZipAt(names: seq<string>, states: seq<bool>)
    ensures |Zip(names, states)| == if |names| < |states| then |names| else |states|
    ensures forall i :: 0 <= i < |Zip(names, states)| ==> Zip(names, states)[i] == Item(names[i], states[i])
    decreases |names|
  {
    if |names| > 0 && |states| > 0 {
      ZipAt(names[1..], states[1..]);
    }
  }

  /**
   `init(_:items:states:start:end:)`: `zip` pairs the two arrays position by
   position and stops at the end of the shorter one.
   */
  function NewFromZip(id: nat, name: string, names: seq<string>, states: seq<bool>,
                      start: Timestamp, end: Option<Timestamp> := None): (r: ListRecord)
    ensures r.id == id && r.name == name && r.start == start && r.end == end
    ensures |r.items| == if |names| < |states| then |names| else |states|
    ensures forall i :: 0 <= i < |r.items| ==> r.items[i].name == names[i] && r.items[i].completed == states[i]
  {
    ZipAt(names, states);
    ListRecord(id, name, start, end, Zip(names, states))
  }

  /** `init(_:start:end:)`: a list with no items. */
  function NewNamed(id: nat, name: string, start: Timestamp, end: Option<Timestamp> := None): (r: ListRecord)
    ensures r.id == id && r.name == name && r.start == start && r.end == end
    ensures |r.items| == 0
  {
    ListRecord(id, name, start, end, [])
  }

  /** `updateEndDate(newDate:)`: sets the due date and nothing else. */
  function UpdateEndDate(r: ListRecord, newDate: Timestamp): (r': ListRecord)
    ensures r'.end == Some(newDate)
    ensures r'.id == r.id && r'.name == r.name && r'.start == r.start && r'.items == r.items
  {
    r.(end := Some(newDate))
  }

  /** Setting the due date twice keeps only the second date. */
  lemma UpdateEndDateLastWins(r: ListRecord, d1: Timestamp, d2: Timestamp)
    ensures UpdateEndDate(UpdateEndDate(r, d1), d2) == UpdateEndDate(r, d2)
  {
  }

  /** The name/state initialiser with arrays of equal length loses nothing: the arrays can be read back. */
  lemma {:induction false} ZipUnzip(id: nat, name: string, names: seq<string>, states: seq<bool>, start: Timestamp)
    requires |names| == |states|
    ensures var r := NewFromZip(id, name, names, states, start);
      seq(|r.items|, i requires 0 <= i < |r.items| => r.items[i].name) == names &&
      seq(|r.items|, i requires 0 <= i < |r.items| => r.items[i].completed) == states
  {
    ZipAt(names, states);
  }
}
