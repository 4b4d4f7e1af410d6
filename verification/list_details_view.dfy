/**
 `ListDetailsView`: the screen editing one list. Its `@State` holds the
 edited name, the edited due date and a "no end date" flag; the model
 operations are `saveChanges`, `addItem` and `deleteItem`.
 */
module ListDetailsView {
  import opened Optional
  import opened ListItemModel
  import opened Offsets

  /** The edit state: `name`, `endDate` and `noEndDate`. */
  datatype EditState = EditState(name: string, endDate: Timestamp, noEndDate: bool)

  /**
   `init(listItemModel:)`: the name is seeded from the list, the date from
   its due date (or `now` when it has none), and the "no end date" flag is
   cleared exactly when the list has a due date.
   */
  function InitEdit(r: ListRecord, now: Timestamp): (e: EditState)
    ensures e.name == r.name
    ensures e.noEndDate <==> r.end.None?
    ensures r.end == Some(e.endDate) || (r.end.None? && e.endDate == now)
  {
    var noEndDate := if r.end.Some? then false else true;
    EditState(r.name, r.end.GetOr(now), noEndDate)
  }

  /**
   `saveChanges()`: an empty name abandons the whole save, due date
   included; otherwise the name is stored, and the due date is stored too
   unless "no end date" is set, in which case the existing due date is kept
   (never cleared).
   */
  function SaveChanges(r: ListRecord, e: EditState): (r': ListRecord)
    ensures e.name == [] ==> r' == r
    ensures e.name != [] ==> r'.name == e.name
    ensures e.name != [] && e.noEndDate ==> r'.end == r.end
    ensures e.name != [] && !e.noEndDate ==> r'.end == Some(e.endDate)
    ensures r'.end.None? ==> r.end.None?
    ensures r'.id == r.id && r'.start == r.start && r'.items == r.items
  {
    if e.name == [] then r
    else
      var renamed := r.(name := e.name);
      if e.noEndDate then renamed
      else renamed.(end := Some(e.endDate))
  }

  /** Saving right after opening the editor, with nothing edited, leaves the list as it was. */
  lemma SaveUneditedIsNoOp(r: ListRecord, now: Timestamp)
    ensures SaveChanges(r, InitEdit(r, now)) == r
  {
  }

  /** Saving the same edit twice is the same as saving it once. */
  lemma SaveChangesIdempotent(r: ListRecord, e: EditState)
    ensures SaveChanges(SaveChanges(r, e), e) == SaveChanges(r, e)
  {
  }

  /** `addItem(itemName:)`: an empty name adds nothing; otherwise one unchecked item goes at the end. */
  function AddItem(r: ListRecord, itemName: string): (r': ListRecord)
    ensures itemName == [] ==> r' == r
    ensures itemName != [] ==> |r'.items| == |r.items| + 1
    ensures itemName != [] ==> r'.items[..|r.items|] == r.items
    ensures itemName != [] ==> r'.items[|r.items|] == Item(itemName, false)
    ensures r'.id == r.id && r'.name == r.name && r'.start == r.start && r'.end == r.end
  {
    if itemName == [] then r
    else
      var items := r.items + [Item(itemName, false)];
      assert items[..|r.items|] == r.items;
      r.(items := items)
  }

  /** `deleteItem(at:)`: the items at the given offsets are removed; the rest keep their order. */
  function DeleteItem(r: ListRecord, offsets: set<nat>): (r': ListRecord)
    requires InRange(offsets, |r.items|)
    ensures |r'.items| == |r.items| - |offsets|
    ensures var kept := KeptPositions(offsets, 0, |r.items|);
      |r'.items| == |kept| && forall k :: 0 <= k < |kept| ==> r'.items[k] == r.items[kept[k]]
    ensures r'.id == r.id && r'.name == r.name && r'.start == r.start && r'.end == r.end
  {
    RemoveAtOffsetsKeepsTheRest(r.items, offsets);
    r.(items := RemoveAtOffsets(r.items, offsets))
  }

  /** Deleting the item just added undoes the addition. */
  lemma DeleteUndoesAdd(r: ListRecord, itemName: string)
    requires itemName != []
    ensures DeleteItem(AddItem(r, itemName), {|r.items|}) == r
  {
    RemoveLast(r.items, Item(itemName, false));
  }
}
