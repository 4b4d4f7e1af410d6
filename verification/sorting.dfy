/**
 `ListMainSortingOptions` and the four orderings the main screen offers.
 Each ordering is Swift's `sorted(by:)` with a strict "comes before"
 comparator; here the sort itself is an insertion sort, and what is proved
 is what any correct sort guarantees: the result is a permutation of the
 input in which no record comes before an earlier one. Nothing is claimed
 about the relative order of ties.
 */
module Sorting {
  import opened Optional
  import opened SwiftText
  import opened ListItemModel

  datatype SortOption = Alphabet | DueFirst | CreateFirst | CreateLast

  /** The closure given to `sorted(by:)` in `sortByDue()`. */
  predicate DueBefore(a: ListRecord, b: ListRecord) {
    match a.end
    case Some(first) =>
      (match b.end
       case Some(second) => first < second
       case None => true)
    case None =>
      (match b.end
       case Some(_) => false
       case None => a.start < b.start)
  }

  /** The comparator each sort option hands to `sorted(by:)`. */
  predicate Before(option: SortOption, a: ListRecord, b: ListRecord) {
    match option
    case Alphabet => LexLess(a.name, b.name)
    case DueFirst => DueBefore(a, b)
    case CreateFirst => a.start < b.start
    case CreateLast => a.start > b.start
  }

  /** No record comes before one that precedes it. */
  predicate SortedBy(option: SortOption, s: seq<ListRecord>) {
    forall i, j :: 0 <= i < j < |s| ==> !Before(option, s[j], s[i])
  }

  // ---------------------------------------------------------------------------
  // Every comparator is a strict weak order
  // ---------------------------------------------------------------------------

  ghost predicate Irreflexive(option: SortOption) {
    forall a: ListRecord :: !Before(option, a, a)
  }

  ghost predicate Transitive(option: SortOption) {
    forall a: ListRecord, b: ListRecord, c: ListRecord ::
      Before(option, a, b) && Before(option, b, c) ==> Before(option, a, c)
  }

  /** Being unordered ("neither comes before the other") is transitive. */
  ghost predicate IncomparabilityTransitive(option: SortOption) {
    forall a: ListRecord, b: ListRecord, c: ListRecord ::
      !Before(option, a, b) && !Before(option, b, a) && !Before(option, b, c) && !Before(option, c, b)
      ==> !Before(option, a, c) && !Before(option, c, a)
  }

  ghost predicate StrictWeakOrder(option: SortOption) {
    Irreflexive(option) && Transitive(option) && IncomparabilityTransitive(option)
  }

  /** The earliest-deadline comparator meets `sorted(by:)`'s requirement of a strict weak order. */
  lemma DueBeforeIsStrictWeakOrder()
    ensures StrictWeakOrder(DueFirst)
  {
  }

  /** So do the other three comparators. */
  lemma {:induction false} AllComparatorsAreStrictWeakOrders(option: SortOption)
    ensures StrictWeakOrder(option)
  {
    if option == Alphabet {
      forall a: ListRecord {
        LexLessIrreflexive(a.name);
      }
      forall a: ListRecord, b: ListRecord, c: ListRecord | Before(option, a, b) && Before(option, b, c) {
        LexLessTransitive(a.name, b.name, c.name);
      }
      forall a: ListRecord, b: ListRecord, c: ListRecord
        | !Before(option, a, b) && !Before(option, b, a) && !Before(option, b, c) && !Before(option, c, b)
        ensures !Before(option, a, c) && !Before(option, c, a)
      {
        LexLessTotal(a.name, b.name);
        LexLessTotal(b.name, c.name);
        LexLessIrreflexive(a.name);
      }
    }
  }

  /** `!Before` is total and transitive: the facts the insertion sort needs. */
  lemma NotBeforeIsTotalPreorder(option: SortOption, a: ListRecord, b: ListRecord, c: ListRecord)
    ensures !Before(option, a, b) || !Before(option, b, a)
    ensures !Before(option, b, a) && !Before(option, c, b) ==> !Before(option, c, a)
  {
    if option == Alphabet {
      LexLessAsymmetric(a.name, b.name);
      LexLessTotal(a.name, b.name);
      LexLessTotal(b.name, c.name);
      LexLessTotal(a.name, c.name);
      LexLessAsymmetric(a.name, c.name);
      if LexLess(a.name, b.name) && LexLess(b.name, c.name) {
        LexLessTransitive(a.name, b.name, c.name);
      }
    }
  }

  // ---------------------------------------------------------------------------
  // Insertion sort
  // ---------------------------------------------------------------------------

  /** Inserts `x` in front of the first record that does not come before it. */
  function Insert(option: SortOption, x: ListRecord, s: seq<ListRecord>): (r: seq<ListRecord>)
    requires SortedBy(option, s)
    ensures multiset(r) == multiset(s) + multiset{x}
    ensures SortedBy(option, r)
    decreases |s|
  {
    if |s| == 0 then [x]
    else if !Before(option, s[0], x) then
      NotBeforeAll(option, x, s);
      PrependSorted(option, x, s);
      [x] + s
    else
      var rest := Insert(option, x, s[1..]);
      HeadPrecedesInsertion(option, x, s, rest);
      PrependSorted(option, s[0], rest);
      assert s == [s[0]] + s[1..];
      [s[0]] + rest
  }

  /** A record preceded by nothing in a sorted sequence can go in front of it. */
  lemma PrependSorted(option: SortOption, h: ListRecord, t: seq<ListRecord>)
    requires SortedBy(option, t)
    requires forall k :: 0 <= k < |t| ==> !Before(option, t[k], h)
    ensures SortedBy(option, [h] + t)
  {
    var r := [h] + t;
    forall i, j | 0 <= i < j < |r|
      ensures !Before(option, r[j], r[i])
    {
      assert r[j] == t[j - 1];
      if i > 0 {
        assert r[i] == t[i - 1];
      }
    }
  }

  /** When the head of a sorted `s` comes before `x`, nothing in `x` inserted into the tail comes before that head. */
  lemma HeadPrecedesInsertion(option: SortOption, x: ListRecord, s: seq<ListRecord>, rest: seq<ListRecord>)
    requires SortedBy(option, s) && |s| > 0 && Before(option, s[0], x)
    requires multiset(rest) == multiset(s[1..]) + multiset{x}
    ensures forall k :: 0 <= k < |rest| ==> !Before(option, rest[k], s[0])
  {
    NotBeforeIsTotalPreorder(option, s[0], x, x);
    forall k | 0 <= k < |rest|
      ensures !Before(option, rest[k], s[0])
    {
      assert rest[k] in multiset(rest);
      if rest[k] != x {
        assert rest[k] in multiset(s[1..]);
        var j :| 0 <= j < |s[1..]| && s[1..][j] == rest[k];
        assert s[j + 1] == rest[k];
      }
    }
  }

  /** If `x` is not preceded by the head of a sorted `s`, it is preceded by nothing in `s`. */
  lemma NotBeforeAll(option: SortOption, x: ListRecord, s: seq<ListRecord>)
    requires SortedBy(option, s) && |s| > 0 && !Before(option, s[0], x)
    ensures forall k :: 0 <= k < |s| ==> !Before(option, s[k], x)
  {
    forall k | 0 <= k < |s|
      ensures !Before(option, s[k], x)
    {
      if k > 0 {
        NotBeforeIsTotalPreorder(option, x, s[0], s[k]);
      }
    }
  }

  /** `listArray.sorted(by:)` with the option's comparator. */
  function Sort(option: SortOption, s: seq<ListRecord>): (r: seq<ListRecord>)
    ensures multiset(r) == multiset(s)
    ensures SortedBy(option, r)
    decreases |s|
  {
    if |s| == 0 then []
    else
      assert s == [s[0]] + s[1..];
      Insert(option, s[0], Sort(option, s[1..]))
  }

  // ---------------------------------------------------------------------------
  // The four sort functions and the dispatch on the selected option
  // ---------------------------------------------------------------------------

  /** `sortByAlphabet()`: A–Z, non-decreasing by name. */
  function SortByAlphabet(lists: seq<ListRecord>): (r: seq<ListRecord>)
    ensures multiset(r) == multiset(lists)
    ensures forall i, j :: 0 <= i < j < |r| ==> LexLe(r[i].name, r[j].name)
  {
    var r := Sort(Alphabet, lists);
    assert forall i, j :: 0 <= i < j < |r| ==> LexLe(r[i].name, r[j].name) by {
      forall i, j | 0 <= i < j < |r|
        ensures LexLe(r[i].name, r[j].name)
      {
        assert !Before(Alphabet, r[j], r[i]);
        LexLessTotal(r[i].name, r[j].name);
      }
    }
    r
  }

  /**
   `sortByDue()`: every list with a due date comes before every list without
   one; dated lists are in ascending due date, undated ones in ascending
   creation date.
   */
  function SortByDue(lists: seq<ListRecord>): (r: seq<ListRecord>)
    ensures multiset(r) == multiset(lists)
    ensures forall i, j :: 0 <= i < |r| && 0 <= j < |r| && r[i].end.Some? && r[j].end.None? ==> i < j
    ensures forall i, j :: 0 <= i < j < |r| && r[i].end.Some? && r[j].end.Some? ==> r[i].end.value <= r[j].end.value
    ensures forall i, j :: 0 <= i < j < |r| && r[i].end.None? && r[j].end.None? ==> r[i].start <= r[j].start
  {
    Sort(DueFirst, lists)
  }

  /** `sortByCreateFirst()`: oldest first. */
  function SortByCreateFirst(lists: seq<ListRecord>): (r: seq<ListRecord>)
    ensures multiset(r) == multiset(lists)
    ensures forall i, j :: 0 <= i < j < |r| ==> r[i].start <= r[j].start
  {
    Sort(CreateFirst, lists)
  }

  /** `sortByCreateLast()`: newest first. */
  function SortByCreateLast(lists: seq<ListRecord>): (r: seq<ListRecord>)
    ensures multiset(r) == multiset(lists)
    ensures forall i, j :: 0 <= i < j < |r| ==> r[i].start >= r[j].start
  {
    Sort(CreateLast, lists)
  }

  /** `listArraySortByOption`: the lists in the order the selected option's comparator prescribes. */
  function SortByOption(option: SortOption, lists: seq<ListRecord>): (r: seq<ListRecord>)
    ensures multiset(r) == multiset(lists)
    ensures SortedBy(option, r)
  {
    match option
    case Alphabet => SortByAlphabet(lists)
    case DueFirst => SortByDue(lists)
    case CreateFirst => SortByCreateFirst(lists)
    case CreateLast => SortByCreateLast(lists)
  }

  /** A permutation keeps the length. */
  lemma PermutationKeepsLength(option: SortOption, lists: seq<ListRecord>)
    ensures |SortByOption(option, lists)| == |lists|
  {
    var r := SortByOption(option, lists);
    assert |multiset(r)| == |multiset(lists)|;
  }
}
