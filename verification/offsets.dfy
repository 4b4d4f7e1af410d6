/**
 Swift's `Array.remove(atOffsets:)`: removes the elements at every position
 of an `IndexSet`, all positions referring to the array before removal.
 Offsets out of range trap in Swift, so they are excluded by precondition.
 */
module Offsets {

  predicate InRange(offsets: set<nat>, n: nat) {
    forall o :: o in offsets ==> o < n
  }

  /** The elements from position `from` on whose positions are not in `offsets`. */
  function KeepFrom<T>(s: seq<T>, offsets: set<nat>, from: nat): seq<T>
    requires from <= |s|
    decreases |s| - from
  {
    if from == |s| then []
    else (if from in offsets then [] else [s[from]]) + KeepFrom(s, offsets, from + 1)
  }

  /** The positions from `from` up to `n` that are not in `offsets`, ascending. */
  function KeptPositions(offsets: set<nat>, from: nat, n: nat): (ps: seq<nat>)
    requires from <= n
    ensures forall k :: 0 <= k < |ps| ==> from <= ps[k] < n && ps[k] !in offsets
    ensures forall k, l :: 0 <= k < l < |ps| ==> ps[k] < ps[l]
    ensures forall p :: from <= p < n && p !in offsets ==> p in ps
    decreases n - from
  {
    if from == n then []
    else (if from in offsets then [] else [from]) + KeptPositions(offsets, from + 1, n)
  }

  /** `remove(atOffsets:)`. */
  function RemoveAtOffsets<T>(s: seq<T>, offsets: set<nat>): seq<T>
    requires InRange(offsets, |s|)
  {
    KeepFrom(s, offsets, 0)
  }

  lemma {:induction false} KeepFromPicksKept<T>(s: seq<T>, offsets: set<nat>, from: nat)
    requires from <= |s|
    ensures |KeepFrom(s, offsets, from)| == |KeptPositions(offsets, from, |s|)|
    ensures forall k :: 0 <= k < |KeepFrom(s, offsets, from)| ==>
      KeepFrom(s, offsets, from)[k] == s[KeptPositions(offsets, from, |s|)[k]]
    decreases |s| - from
  {
    if from < |s| {
      KeepFromPicksKept(s, offsets, from + 1);
      var rest := KeepFrom(s, offsets, from + 1);
      var restPositions := KeptPositions(offsets, from + 1, |s|);
      if from in offsets {
        assert KeepFrom(s, offsets, from) == rest;
        assert KeptPositions(offsets, from, |s|) == restPositions;
      } else {
        var r := KeepFrom(s, offsets, from);
        var ps := KeptPositions(offsets, from, |s|);
        assert r == [s[from]] + rest;
        assert ps == [from] + restPositions;
        forall k | 0 <= k < |r|
          ensures r[k] == s[ps[k]]
        {
          if k > 0 {
            assert r[k] == rest[k - 1] && ps[k] == restPositions[k - 1];
          }
        }
      }
    }
  }

  function OffsetsBetween(offsets: set<nat>, from: nat, n: nat): set<nat> {
    set o | o in offsets && from <= o < n
  }

  lemma OffsetsBetweenStep(offsets: set<nat>, from: nat, n: nat)
    requires from < n
    ensures from in offsets ==> |OffsetsBetween(offsets, from, n)| == |OffsetsBetween(offsets, from + 1, n)| + 1
    ensures from !in offsets ==> OffsetsBetween(offsets, from, n) == OffsetsBetween(offsets, from + 1, n)
  {
    var here := OffsetsBetween(offsets, from, n);
    var later := OffsetsBetween(offsets, from + 1, n);
    if from in offsets {
      assert here == later + {from};
      assert from !in later;
    } else {
      assert here == later;
    }
  }

  lemma {:induction false} KeptPositionsCount(offsets: set<nat>, from: nat, n: nat)
    requires from <= n
    ensures |KeptPositions(offsets, from, n)| + |OffsetsBetween(offsets, from, n)| == n - from
    decreases n - from
  {
    if from == n {
      assert OffsetsBetween(offsets, from, n) == {};
    } else {
      KeptPositionsCount(offsets, from + 1, n);
      OffsetsBetweenStep(offsets, from, n);
      var rest := KeptPositions(offsets, from + 1, n);
      assert KeptPositions(offsets, from, n) == (if from in offsets then [] else [from]) + rest;
    }
  }

  /**
   `remove(atOffsets:)` keeps exactly the elements whose positions are not
   in `offsets`, in their original order, and is `|offsets|` shorter.
   */
  lemma RemoveAtOffsetsKeepsTheRest<T>(s: seq<T>, offsets: set<nat>)
    requires InRange(offsets, |s|)
    ensures var r := RemoveAtOffsets(s, offsets);
      var kept := KeptPositions(offsets, 0, |s|);
      && |r| == |s| - |offsets|
      && |r| == |kept|
      && (forall k :: 0 <= k < |r| ==> r[k] == s[kept[k]])
  {
    KeepFromPicksKept(s, offsets, 0);
    KeptPositionsCount(offsets, 0, |s|);
    assert OffsetsBetween(offsets, 0, |s|) == offsets;
  }

  /** Removing the three-element `[a, b, c]` at offsets {0, 2} leaves `[b]`. */
  lemma RemoveFirstAndLast<T>(a: T, b: T, c: T)
    ensures RemoveAtOffsets([a, b, c], {0, 2}) == [b]
  {
    var s := [a, b, c];
    assert KeepFrom(s, {0, 2}, 3) == [];
    assert KeepFrom(s, {0, 2}, 2) == [];
    assert KeepFrom(s, {0, 2}, 1) == [b];
  }

  /** Removing nothing changes nothing. */
  lemma {:induction false} RemoveNothing<T>(s: seq<T>, from: nat)
    requires from <= |s|
    ensures KeepFrom(s, {}, from) == s[from..]
    decreases |s| - from
  {
    if from < |s| {
      RemoveNothing(s, from + 1);
      assert s[from..] == [s[from]] + s[from + 1..];
    }
  }

  /** Removing the last position drops the last element and nothing else. */
  lemma {:induction false} RemoveLast<T>(s: seq<T>, x: T)
    ensures RemoveAtOffsets(s + [x], {|s|}) == s
  {
    var t := s + [x];
    KeepWithoutLast(t, |s|, 0);
    assert t[..|s|] == s;
  }

  lemma {:induction false} KeepWithoutLast<T>(t: seq<T>, last: nat, from: nat)
    requires last + 1 == |t| && from <= last
    ensures KeepFrom(t, {last}, from) == t[from..last]
    decreases |t| - from
  {
    if from < last {
      KeepWithoutLast(t, last, from + 1);
      assert t[from..last] == [t[from]] + t[from + 1..last];
    } else {
      assert KeepFrom(t, {last}, last + 1) == [];
    }
  }
}
