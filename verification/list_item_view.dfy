/**
 `ListItemView`: a row showing one entry. Tapping the text toggles the
 entry's completion flag through a binding to one index of the owning
 list's `itemStatePair`; the icon depends on that flag.
 */
module ListItemView {
  import opened ListItemModel

  /** `isComplete.toggle()` on one entry. */
  function Toggle(it: Item): (t: Item)
    ensures t.completed != it.completed
    ensures t.name == it.name
  {
    it.(completed := !it.completed)
  }

  /** Toggling twice gives back the entry as it was. */
  lemma ToggleTwice(it: Item)
    ensures Toggle(Toggle(it)) == it
  {
  }

  /**
   A tap on row `index` of a list: the binding reaches exactly
   `itemStatePair[index]`, so only that entry's flag changes.
   */
  function TapItem(r: ListRecord, index: nat): (r': ListRecord)
    requires index < |r.items|
    ensures |r'.items| == |r.items|
    ensures r'.items[index].name == r.items[index].name
    ensures r'.items[index].completed == !r.items[index].completed
    ensures forall j :: 0 <= j < |r.items| && j != index ==> r'.items[j] == r.items[j]
    ensures r'.id == r.id && r'.name == r.name && r'.start == r.start && r'.end == r.end
  {
    r.(items := r.items[index := Toggle(r.items[index])])
  }

  /** Two taps on the same row leave the list as it was. */
  lemma TapTwice(r: ListRecord, index: nat)
    requires index < |r.items|
    ensures TapItem(TapItem(r, index), index) == r
  {
    assert TapItem(TapItem(r, index), index).items == r.items;
  }

  /** `getImageName()`: the filled icon for a completed entry, the empty circle otherwise. */
  function ImageName(isComplete: bool): (name: string)
    ensures name == "smallcircle.filled.circle" <==> isComplete
    ensures !isComplete ==> name == "circle"
  {
    if isComplete then "smallcircle.filled.circle" else "circle"
  }
}
