/**
 `ListMainView`: the screen listing every stored list. Its model-facing
 logic is the default-name allocator used when a new list is created, the
 creation and deletion of lists in the store, and the initial sort option.
 The store (`@Query var listArray`) is a sequence of records.
 */
module ListMainView {
  import opened Optional
  import opened SwiftText
  import opened ListItemModel
  import opened Sorting

  // ---------------------------------------------------------------------------
  // findDefaultName()
  // ---------------------------------------------------------------------------

  /**
   The filter in `findDefaultName()`: the name starts with "List", splits on
   spaces into exactly two pieces, the first being "List" and the second an
   `Int`.
   */
  predicate IsDefaultShaped(name: string) {
    && HasPrefix(name, "List")
    && var pieces := Split(name, ' ');
       |pieces| == 2 && pieces[0] == "List" && ParseInt(pieces[1]).Some?
  }

  /** The number a default-shaped name ends in. */
  function SuffixValue(name: string): int
    requires IsDefaultShaped(name)
  {
    ParseInt(Split(name, ' ')[1]).value
  }

  function Names(lists: seq<ListRecord>): (names: seq<string>)
    ensures |names| == |lists|
    ensures forall i :: 0 <= i < |lists| ==> names[i] == lists[i].name
  {
    seq(|lists|, i requires 0 <= i < |lists| => lists[i].name)
  }

  /** `filter { ... }.map { $0.listName }`: the default-shaped names, in store order. */
  function DefaultShapedNames(names: seq<string>): (r: seq<string>)
    ensures forall n :: n in r <==> n in names && IsDefaultShaped(n)
  {
    if |names| == 0 then []
    else (if IsDefaultShaped(names[0]) then [names[0]] else []) + DefaultShapedNames(names[1..])
  }

  /** `.sorted().last`: the lexicographically greatest name, if any. */
  function LastWhenSorted(names: seq<string>): (m: Option<string>)
    ensures m.None? <==> |names| == 0
    ensures m.Some? ==> m.value in names && forall n :: n in names ==> LexLe(n, m.value)
  {
    if |names| == 0 then None
    else
      match LastWhenSorted(names[1..])
      case None => Some(names[0])
      case Some(t) =>
        LexLessTotal(t, names[0]);
        if LexLess(t, names[0]) then
          LexGreaterThanAll(names[1..], t, names[0]);
          Some(names[0])
        else Some(t)
  }

  lemma LexGreaterThanAll(names: seq<string>, t: string, u: string)
    requires forall n :: n in names ==> LexLe(n, t)
    requires LexLess(t, u)
    ensures forall n :: n in names ==> LexLe(n, u)
  {
    forall n | n in names
      ensures LexLe(n, u)
    {
      if n != t {
        LexLessTransitive(n, t, u);
      }
    }
  }

  /**
   `findDefaultName()`: "List " followed by one more than the number of the
   lexicographically greatest default-shaped name, or "List 1" if there is
   none. The comparison is on the whole name string, not on the number.
   */
  function FindDefaultName(lists: seq<ListRecord>): (name: string)
    ensures HasPrefix(name, "List ")
    ensures (forall i :: 0 <= i < |lists| ==> !IsDefaultShaped(lists[i].name)) ==> name == "List 1"
  {
    var num :=
      match LastWhenSorted(DefaultShapedNames(Names(lists)))
      case None => 1
      case Some(last) =>
        match ParseInt(Split(last, ' ')[1])
        case Some(number) => number + 1
        case None => 1;
    var name := "List " + FormatInt(num);
    assert name[..5] == "List ";
    assert (forall i :: 0 <= i < |lists| ==> !IsDefaultShaped(lists[i].name)) ==> num == 1 by {
      if forall i :: 0 <= i < |lists| ==> !IsDefaultShaped(lists[i].name) {
        assert forall n :: n in Names(lists) ==> !IsDefaultShaped(n);
        assert DefaultShapedNames(Names(lists)) == [];
      }
    }
    name
  }

  /**
   The allocated name is determined by the greatest default-shaped name of
   the store under string order: it is "List " and that name's number plus
   one.
   */
  lemma DefaultNameFollowsGreatest(lists: seq<ListRecord>, greatest: ListRecord)
    requires greatest in lists && IsDefaultShaped(greatest.name)
    requires forall i :: 0 <= i < |lists| && IsDefaultShaped(lists[i].name) ==> LexLe(lists[i].name, greatest.name)
    ensures FindDefaultName(lists) == "List " + FormatInt(SuffixValue(greatest.name) + 1)
  {
    var shaped := DefaultShapedNames(Names(lists));
    var i :| 0 <= i < |lists| && lists[i] == greatest;
    assert greatest.name in Names(lists);
    var m := LastWhenSorted(shaped);
    assert m.Some?;
    assert m.value in Names(lists);
    LexLeTotalOrder(m.value, greatest.name, greatest.name);
  }

  /** The allocated name is itself default-shaped unless its number overflows `Int`. */
  lemma DefaultNameIsDefaultShaped(n: int)
    requires IntMin <= n <= IntMax
    ensures IsDefaultShaped("List " + FormatInt(n))
    ensures SuffixValue("List " + FormatInt(n)) == n
  {
    FormatIntIsOneWord(n);
    assert "List " + FormatInt(n) == "List" + [' '] + FormatInt(n);
    SplitTwoWords("List", FormatInt(n), ' ');
    FormatParseRoundTrip(n);
  }

  /** With no lists at all the first default name is "List 1". */
  lemma FirstDefaultName()
    ensures FindDefaultName([]) == "List 1"
  {
  }

  function Named(name: string): ListRecord {
    ListRecord(0, name, 0, None, [])
  }

  /** "List 10" sorts before "List 9", so "List 9" is chosen and "List 10" is allocated a second time. */
  lemma DefaultNameCollides(lists: seq<ListRecord>)
    requires lists == [Named("List 9"), Named("List 10")]
    ensures FindDefaultName(lists) == "List 10"
    ensures exists i :: 0 <= i < |lists| && lists[i].name == FindDefaultName(lists)
  {
    var ten := FormatInt(10);
    assert ten == "10";
    assert "List " + ten == "List 10";
    GreatestOfTwo(lists, "List 10", "List 9", 9);
    assert lists[1].name == FindDefaultName(lists);
  }

  /** "List 10" is greater than its prefix "List 1", so "List 11" follows. */
  lemma DefaultNameAfterPrefix()
    ensures FindDefaultName([Named("List 1"), Named("List 10")]) == "List 11"
  {
    var lists := [Named("List 1"), Named("List 10")];
    GreatestOfTwo(lists, "List 1", "List 10", 10);
    assert FormatInt(11) == "11";
  }

  /** "List 9" is the greatest of "List 1", "List 2" and "List 9", so "List 10" follows. */
  lemma DefaultNameAfterNine()
    ensures FindDefaultName([Named("List 1"), Named("List 2"), Named("List 9")]) == "List 10"
  {
    var lists := [Named("List 1"), Named("List 2"), Named("List 9")];
    GreatestOfThree(lists, "List 1", "List 2", "List 9", 9);
    assert FormatInt(10) == "10";
  }

  /**
   For a store of three names `[a, b, c]` where `c` is default-shaped and
   greater than `a` and `b`, the allocator continues from `c`. The names are
   parameters so that the solver does not unfold literal strings.
   */
  lemma GreatestOfThree(lists: seq<ListRecord>, a: string, b: string, c: string, nc: int)
    requires lists == [Named(a), Named(b), Named(c)]
    requires IntMin <= nc <= IntMax && c == "List " + FormatInt(nc)
    requires LexLess(a, c) && LexLess(b, c)
    ensures FindDefaultName(lists) == "List " + FormatInt(nc + 1)
  {
    DefaultNameIsDefaultShaped(nc);
    DefaultNameFollowsGreatest(lists, Named(c));
  }

  /**
   For a store of two names `[a, b]`, in either order, where `b` is
   default-shaped and greater than `a`, the allocator continues from `b`.
   */
  lemma GreatestOfTwo(lists: seq<ListRecord>, a: string, b: string, nb: int)
    requires lists == [Named(a), Named(b)] || lists == [Named(b), Named(a)]
    requires IntMin <= nb <= IntMax && b == "List " + FormatInt(nb)
    requires LexLess(a, b)
    ensures FindDefaultName(lists) == "List " + FormatInt(nb + 1)
  {
    DefaultNameIsDefaultShaped(nb);
    DefaultNameFollowsGreatest(lists, Named(b));
  }

  // ---------------------------------------------------------------------------
  // An allocator that continues from the greatest number instead of the greatest string
  // ---------------------------------------------------------------------------

  /** The greatest number among the default-shaped names. */
  function MaxSuffix(names: seq<string>): (m: Option<int>)
    ensures m.None? <==> forall n :: n in names ==> !IsDefaultShaped(n)
    ensures m.Some? ==> exists n :: n in names && IsDefaultShaped(n) && SuffixValue(n) == m.value
    ensures m.Some? ==> forall n :: n in names && IsDefaultShaped(n) ==> SuffixValue(n) <= m.value
  {
    if |names| == 0 then None
    else
      var rest := MaxSuffix(names[1..]);
      if !IsDefaultShaped(names[0]) then rest
      else
        var v := SuffixValue(names[0]);
        match rest
        case None => Some(v)
        case Some(w) => if w < v then Some(v) else Some(w)
  }

  /** "List " and one more than the greatest number in use, or "List 1". */
  function FindDefaultNameNumeric(lists: seq<ListRecord>): (name: string)
    ensures HasPrefix(name, "List ")
  {
    var num := match MaxSuffix(Names(lists)) case None => 1 case Some(m) => m + 1;
    var name := "List " + FormatInt(num);
    assert name[..5] == "List ";
    name
  }

  /** The numeric allocator never repeats a name already in the store (short of `Int` overflow). */
  lemma NumericDefaultNameIsFresh(lists: seq<ListRecord>)
    requires forall i :: 0 <= i < |lists| && IsDefaultShaped(lists[i].name) ==> SuffixValue(lists[i].name) < IntMax
    ensures forall i :: 0 <= i < |lists| ==> lists[i].name != FindDefaultNameNumeric(lists)
  {
    var names := Names(lists);
    var m := MaxSuffix(names);
    var num := match m case None => 1 case Some(v) => v + 1;
    var name := FindDefaultNameNumeric(lists);
    assert name == "List " + FormatInt(num);
    if m.Some? {
      var n :| n in names && IsDefaultShaped(n) && SuffixValue(n) == m.value;
      var k :| 0 <= k < |lists| && names[k] == n;
    }
    DefaultNameIsDefaultShaped(num);
    forall i | 0 <= i < |lists|
      ensures lists[i].name != name
    {
      assert lists[i].name == names[i];
    }
  }

  // ---------------------------------------------------------------------------
  // The screen's state, addNewList() and deleteList(item:)
  // ---------------------------------------------------------------------------

  /** The store contents together with the screen's `@State` that the model operations touch. */
  datatype MainState = MainState(
    lists: seq<ListRecord>,
    editMode: bool,
    path: seq<ListRecord>,
    sortOption: SortOption)

  /** A freshly shown main screen: not editing, nothing pushed, sorted A–Z. */
  function Initial(lists: seq<ListRecord>): MainState {
    MainState(lists, false, [], Alphabet)
  }

  /** The lists in the order they are shown. */
  function Displayed(st: MainState): seq<ListRecord> {
    SortByOption(st.sortOption, st.lists)
  }

  /** Until the user picks another option, the lists are shown A–Z by name. */
  lemma InitialDisplayIsAlphabetical(lists: seq<ListRecord>)
    ensures var shown := Displayed(Initial(lists));
      && multiset(shown) == multiset(lists)
      && forall i, j :: 0 <= i < j < |shown| ==> LexLe(shown[i].name, shown[j].name)
  {
    var shown := Displayed(Initial(lists));
    forall i, j | 0 <= i < j < |shown|
      ensures LexLe(shown[i].name, shown[j].name)
    {
      LexLessTotal(shown[i].name, shown[j].name);
    }
  }

  function Ids(lists: seq<ListRecord>): set<nat> {
    set i | 0 <= i < |lists| :: lists[i].id
  }

  predicate IdsUnique(lists: seq<ListRecord>) {
    forall i, j :: 0 <= i < j < |lists| ==> lists[i].id != lists[j].id
  }

  /**
   `addNewList()`: inserts one new list, named by the allocator, with no
   items and no due date, then leaves edit mode and navigates to it. `id`
   stands for the fresh `UUID()`, `now` for `Date.now`.
   */
  function AddNewList(st: MainState, id: nat, now: Timestamp): (st': MainState)
    ensures |st'.lists| == |st.lists| + 1
    ensures st'.lists[..|st.lists|] == st.lists
    ensures var added := st'.lists[|st.lists|];
      && added.id == id && added.name == FindDefaultName(st.lists)
      && added.start == now && added.end == None && added.items == []
      && st'.path == [added]
    ensures !st'.editMode && st'.sortOption == st.sortOption
    ensures IdsUnique(st.lists) && id !in Ids(st.lists) ==> IdsUnique(st'.lists)
  {
    var added := NewNamed(id, FindDefaultName(st.lists), now);
    var lists := st.lists + [added];
    assert lists[..|st.lists|] == st.lists;
    assert forall i :: 0 <= i < |st.lists| ==> lists[i].id in Ids(st.lists);
    st.(lists := lists, editMode := false, path := [added])
  }

  /** `listArray.firstIndex(where: { $0.id == item.id })`. */
  function FirstIndex(lists: seq<ListRecord>, id: nat): (k: Option<nat>)
    ensures k.None? ==> forall i :: 0 <= i < |lists| ==> lists[i].id != id
    ensures k.Some? ==> k.value < |lists| && lists[k.value].id == id
    ensures k.Some? ==> forall i :: 0 <= i < k.value ==> lists[i].id != id
  {
    if |lists| == 0 then None
    else if lists[0].id == id then Some(0)
    else match FirstIndex(lists[1..], id)
      case None => None
      case Some(k) => Some(k + 1)
  }

  /** `deleteList(item:)`: deletes the first stored list with the item's id; nothing if there is none. */
  function DeleteList(lists: seq<ListRecord>, item: ListRecord): (r: seq<ListRecord>)
    ensures (forall i :: 0 <= i < |lists| ==> lists[i].id != item.id) ==> r == lists
    ensures (exists i :: 0 <= i < |lists| && lists[i].id == item.id) ==>
      |r| == |lists| - 1 && exists k :: 0 <= k < |lists| && lists[k].id == item.id && r == lists[..k] + lists[k + 1..]
    ensures forall x :: x in lists && x.id != item.id ==> x in r
    ensures IdsUnique(lists) ==> forall x :: x in r ==> x.id != item.id
  {
    match FirstIndex(lists, item.id)
    case None => lists
    case Some(k) =>
      var r := lists[..k] + lists[k + 1..];
      assert lists == lists[..k] + [lists[k]] + lists[k + 1..];
      assert forall x :: x in lists && x != lists[k] ==> x in r;
      r
  }

  /** With unique ids, deleting the list at position `k` removes exactly that position. */
  lemma DeleteListAt(lists: seq<ListRecord>, k: nat)
    requires k < |lists| && IdsUnique(lists)
    ensures DeleteList(lists, lists[k]) == lists[..k] + lists[k + 1..]
  {
    var f := FirstIndex(lists, lists[k].id);
    assert f == Some(k);
  }

  // ---------------------------------------------------------------------------
  // Cascade delete
  // ---------------------------------------------------------------------------

  /** Every item the store holds, across all lists. */
  function StoredItems(lists: seq<ListRecord>): multiset<Item> {
    if |lists| == 0 then multiset{} else multiset(lists[0].items) + StoredItems(lists[1..])
  }

  lemma {:induction false} StoredItemsAppend(a: seq<ListRecord>, b: seq<ListRecord>)
    ensures StoredItems(a + b) == StoredItems(a) + StoredItems(b)
    decreases |a|
  {
    if |a| == 0 {
      assert a + b == b;
    } else {
      assert (a + b)[0] == a[0];
      assert (a + b)[1..] == a[1..] + b;
      StoredItemsAppend(a[1..], b);
    }
  }

  lemma StoredItemsSplit(a: seq<ListRecord>, x: ListRecord, b: seq<ListRecord>)
    ensures StoredItems(a + b) + multiset(x.items) == StoredItems(a + [x] + b)
  {
    assert a + [x] + b == a + ([x] + b);
    StoredItemsAppend(a, [x] + b);
    StoredItemsAppend([x], b);
    StoredItemsAppend(a, b);
    assert ([x] + b)[1..] == b;
  }

  /**
   The cascade rule: deleting a list takes exactly its items out of the
   store, and no other list's items.
   */
  lemma DeleteListCascades(lists: seq<ListRecord>, k: nat)
    requires k < |lists| && IdsUnique(lists)
    ensures StoredItems(DeleteList(lists, lists[k])) + multiset(lists[k].items) == StoredItems(lists)
  {
    var before, after := lists[..k], lists[k + 1..];
    assert before + [lists[k]] + after == lists;
    StoredItemsSplit(before, lists[k], after);
    DeleteListAt(lists, k);
  }
}
