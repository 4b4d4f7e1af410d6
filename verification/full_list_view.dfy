/**
 `FullListView`: a second screen over one list whose `init`, `saveChanges`,
 `addItem` and `deleteItem` repeat those of `ListDetailsView` line for
 line. They are written out again here and shown to agree with the first
 copy.
 */
module FullListView {
  import opened Optional
  import opened ListItemModel
  import opened Offsets
  import ListDetailsView

  function InitEdit(r: ListRecord, now: Timestamp): (e: ListDetailsView.EditState)
    ensures e == ListDetailsView.InitEdit(r, now)
  {
    var noEndDate := if r.end.Some? then false else true;
    ListDetailsView.EditState(r.name, r.end.GetOr(now), noEndDate)
  }

  function SaveChanges(r: ListRecord, e: ListDetailsView.EditState): (r': ListRecord)
    ensures r' == ListDetailsView.SaveChanges(r, e)
  {
    if e.name == [] then r
    else
      var renamed := r.(name := e.name);
      if e.noEndDate then renamed
      else renamed.(end := Some(e.endDate))
  }

  function AddItem(r: ListRecord, itemName: string): (r': ListRecord)
    ensures r' == ListDetailsView.AddItem(r, itemName)
  {
    if itemName == [] then r
    else r.(items := r.items + [Item(itemName, false)])
  }

  function DeleteItem(r: ListRecord, offsets: set<nat>): (r': ListRecord)
    requires InRange(offsets, |r.items|)
    ensures r' == ListDetailsView.DeleteItem(r, offsets)
  {
    r.(items := RemoveAtOffsets(r.items, offsets))
  }
}
