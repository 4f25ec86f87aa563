/**
 * `events.sort(key=lambda x: (year, month, day))`: Python's list sort is
 * stable, so records with the same date keep the order in which they were
 * appended. The specification is stable insertion sort (`SortByDate`); the
 * in-place method is proved to compute it.
 */
module SortEvents {
  import opened DateFormat
  import opened EventRecord
  import opened SeqLemmas

  /** Ascending by date: no later element's date is below an earlier one's. */
  predicate SortedByDate(s: seq<Event>)
  {
    forall i, j :: 0 <= i < j < |s| ==> !DateLess(s[j].startDate, s[i].startDate)
  }

  /** The events of `s` dated `d`, in their order in `s`. */
  function OnDate(s: seq<Event>, d: DateParts): seq<Event>
  {
    if s == [] then []
    else OnDate(s[..|s| - 1], d) + (if s[|s| - 1].startDate == d then [s[|s| - 1]] else [])
  }

  /** A stable sort of `s`: sorted, and the events of every date in their original order. */
  ghost predicate IsStableSortOf(r: seq<Event>, s: seq<Event>)
  {
    SortedByDate(r) && forall d :: OnDate(r, d) == OnDate(s, d)
  }

  /** Puts `e` after every element whose date is not above its own. */
  function Insert(sorted: seq<Event>, e: Event): seq<Event>
  {
    if sorted == [] then [e]
    else if DateLess(e.startDate, sorted[|sorted| - 1].startDate) then
      Insert(sorted[..|sorted| - 1], e) + [sorted[|sorted| - 1]]
    else sorted + [e]
  }

  /** Stable insertion sort by `(year, month, day)`. */
  function SortByDate(s: seq<Event>): seq<Event>
  {
    if s == [] then []
    else Insert(SortByDate(s[..|s| - 1]), s[|s| - 1])
  }

  /** Inserting adds exactly `e`. */
  lemma {:induction false} InsertPermutes(sorted: seq<Event>, e: Event)
    ensures multiset(Insert(sorted, e)) == multiset(sorted) + multiset{e}
    decreases |sorted|
  {
    if sorted != [] && DateLess(e.startDate, sorted[|sorted| - 1].startDate) {
      var init := sorted[..|sorted| - 1];
      assert sorted == init + [sorted[|sorted| - 1]];
      InsertPermutes(init, e);
    }
  }

  /** Sorting neither loses nor duplicates an event. */
  lemma {:induction false} SortByDatePermutes(s: seq<Event>)
    ensures multiset(SortByDate(s)) == multiset(s)
    decreases |s|
  {
    if s != [] {
      assert s == s[..|s| - 1] + [s[|s| - 1]];
      SortByDatePermutes(s[..|s| - 1]);
      InsertPermutes(SortByDate(s[..|s| - 1]), s[|s| - 1]);
    }
  }

  lemma {:induction false} OnDateConcat(a: seq<Event>, b: seq<Event>, d: DateParts)
    ensures OnDate(a + b, d) == OnDate(a, d) + OnDate(b, d)
    decreases |b|
  {
    if b == [] {
      assert a + b == a;
    } else {
      var last := b[|b| - 1];
      ConcatInit(a, b);
      OnDateConcat(a, b[..|b| - 1], d);
      AppendAssoc(OnDate(a, d), OnDate(b[..|b| - 1], d), if last.startDate == d then [last] else []);
    }
  }

  lemma {:induction false} InsertSorted(sorted: seq<Event>, e: Event)
    requires SortedByDate(sorted)
    ensures SortedByDate(Insert(sorted, e))
    decreases |sorted|
  {
    if sorted != [] {
      var last := sorted[|sorted| - 1];
      var init := sorted[..|sorted| - 1];
      if DateLess(e.startDate, last.startDate) {
        InsertSorted(init, e);
        var r := Insert(init, e);
        InsertPermutes(init, e);
        forall i | 0 <= i < |r| ensures !DateLess(last.startDate, r[i].startDate) {
          assert r[i] in multiset(r);
          if r[i] == e {
            DateLessIrreflexive(e.startDate);
            if DateLess(last.startDate, e.startDate) {
              DateLessTransitive(e.startDate, last.startDate, e.startDate);
            }
          } else {
            assert r[i] in init;
          }
        }
      } else {
        forall i | 0 <= i < |sorted| ensures !DateLess(e.startDate, sorted[i].startDate) {
          if DateLess(e.startDate, sorted[i].startDate) {
            DateLessTrichotomy(sorted[i].startDate, last.startDate);
            if i < |sorted| - 1 {
              DateLessTransitive(e.startDate, sorted[i].startDate, last.startDate);
            }
          }
        }
      }
    }
  }

  lemma OnDateSnoc(s: seq<Event>, x: Event, d: DateParts)
    ensures OnDate(s + [x], d) == OnDate(s, d) + (if x.startDate == d then [x] else [])
  {
    assert (s + [x])[..|s + [x]| - 1] == s;
  }

  /** Inserting keeps the order among equal dates: `e` goes after every event dated like it. */
  lemma {:induction false} InsertStable(sorted: seq<Event>, e: Event, d: DateParts)
    ensures OnDate(Insert(sorted, e), d) == OnDate(sorted + [e], d)
    decreases |sorted|
  {
    if sorted != [] {
      var last := sorted[|sorted| - 1];
      var init := sorted[..|sorted| - 1];
      if DateLess(e.startDate, last.startDate) {
        DateLessIrreflexive(e.startDate);
        var onE: seq<Event> := if e.startDate == d then [e] else [];
        var onLast: seq<Event> := if last.startDate == d then [last] else [];
        InsertStable(init, e, d);
        OnDateSnoc(Insert(init, e), last, d);
        OnDateSnoc(init, e, d);
        InitLast(sorted);
        OnDateSnoc(init, last, d);
        OnDateSnoc(sorted, e, d);
        SwapOneEmpty(OnDate(init, d), onE, onLast);
      }
    }
  }

  lemma {:induction false} SortByDateSorted(s: seq<Event>)
    ensures SortedByDate(SortByDate(s))
    decreases |s|
  {
    if s != [] {
      SortByDateSorted(s[..|s| - 1]);
      InsertSorted(SortByDate(s[..|s| - 1]), s[|s| - 1]);
    }
  }

  lemma {:induction false} SortByDateStable(s: seq<Event>, d: DateParts)
    ensures OnDate(SortByDate(s), d) == OnDate(s, d)
    decreases |s|
  {
    if s != [] {
      var init := s[..|s| - 1];
      SortByDateStable(init, d);
      InsertStable(SortByDate(init), s[|s| - 1], d);
      OnDateConcat(SortByDate(init), [s[|s| - 1]], d);
      OnDateConcat(init, [s[|s| - 1]], d);
      InitLast(s);
    }
  }

  /** The result of `SortByDate` is a stable sort of its input and a permutation of it. */
  lemma SortByDateIsStableSort(s: seq<Event>)
    ensures IsStableSortOf(SortByDate(s), s)
    ensures multiset(SortByDate(s)) == multiset(s)
  {
    SortByDateSorted(s);
    SortByDatePermutes(s);
    forall d ensures OnDate(SortByDate(s), d) == OnDate(s, d) {
      SortByDateStable(s, d);
    }
  }

  lemma {:induction false} InOnDate(s: seq<Event>, d: DateParts, x: Event)
    ensures x in OnDate(s, d) <==> x in s && x.startDate == d
    decreases |s|
  {
    if s != [] {
      var init := s[..|s| - 1];
      InOnDate(init, d, x);
      assert s == init + [s[|s| - 1]];
    }
  }

  /** In a date-sorted sequence nothing is dated above the last element. */
  lemma LastIsLatest(r: seq<Event>, y: Event)
    requires SortedByDate(r) && r != [] && y in r
    ensures !DateLess(r[|r| - 1].startDate, y.startDate)
  {
    var k :| 0 <= k < |r| && r[k] == y;
    if k == |r| - 1 {
      DateLessIrreflexive(y.startDate);
    }
  }

  lemma SameDatesSameMembers(r1: seq<Event>, r2: seq<Event>, z: Event)
    requires forall d :: OnDate(r1, d) == OnDate(r2, d)
    ensures z in r1 <==> z in r2
  {
    InOnDate(r1, z.startDate, z);
    InOnDate(r2, z.startDate, z);
  }

  lemma SameDatesBothEmpty(r1: seq<Event>, r2: seq<Event>)
    requires r1 == []
    requires forall d :: OnDate(r1, d) == OnDate(r2, d)
    ensures r2 == []
  {
    if r2 != [] {
      SameDatesSameMembers(r1, r2, r2[0]);
    }
  }

  lemma SameDatesSameLastDate(r1: seq<Event>, r2: seq<Event>)
    requires SortedByDate(r1) && SortedByDate(r2) && r1 != [] && r2 != []
    requires forall d :: OnDate(r1, d) == OnDate(r2, d)
    ensures r1[|r1| - 1].startDate == r2[|r2| - 1].startDate
  {
    var x, y := r1[|r1| - 1], r2[|r2| - 1];
    SameDatesSameMembers(r1, r2, y);
    SameDatesSameMembers(r1, r2, x);
    LastIsLatest(r1, y);
    LastIsLatest(r2, x);
    DateLessTrichotomy(x.startDate, y.startDate);
  }

  lemma SameDatesSameLast(r1: seq<Event>, r2: seq<Event>)
    requires r1 != [] && r2 != [] && r1[|r1| - 1].startDate == r2[|r2| - 1].startDate
    requires forall d :: OnDate(r1, d) == OnDate(r2, d)
    ensures r1[|r1| - 1] == r2[|r2| - 1]
  {
    var x, y := r1[|r1| - 1], r2[|r2| - 1];
    var date := x.startDate;
    var a, b := OnDate(r1, date), OnDate(r2, date);
    assert a == OnDate(r1[..|r1| - 1], date) + [x];
    assert b == OnDate(r2[..|r2| - 1], date) + [y];
    assert a[|a| - 1] == x && b[|b| - 1] == y;
  }

  lemma SameDatesWithoutLast(init1: seq<Event>, init2: seq<Event>, x: Event)
    requires forall d :: OnDate(init1 + [x], d) == OnDate(init2 + [x], d)
    ensures forall d :: OnDate(init1, d) == OnDate(init2, d)
  {
    forall d ensures OnDate(init1, d) == OnDate(init2, d) {
      OnDateSnoc(init1, x, d);
      OnDateSnoc(init2, x, d);
      var a, b := OnDate(init1, d), OnDate(init2, d);
      var tail := if x.startDate == d then [x] else [];
      assert a + tail == b + tail;
      assert a == (a + tail)[..|a|];
      assert b == (b + tail)[..|b|];
    }
  }

  /** Two date-sorted sequences with the same events of every date, in the same order, are equal. */
  lemma {:induction false} SortedUnique(r1: seq<Event>, r2: seq<Event>)
    requires SortedByDate(r1) && SortedByDate(r2)
    requires forall d :: OnDate(r1, d) == OnDate(r2, d)
    ensures r1 == r2
    decreases |r1|
  {
    if r1 == [] {
      SameDatesBothEmpty(r1, r2);
    } else if r2 == [] {
      SameDatesBothEmpty(r2, r1);
    } else {
      SameDatesSameLastDate(r1, r2);
      SameDatesSameLast(r1, r2);
      var x := r1[|r1| - 1];
      var init1, init2 := r1[..|r1| - 1], r2[..|r2| - 1];
      assert r1 == init1 + [x] && r2 == init2 + [x];
      SameDatesWithoutLast(init1, init2, x);
      SortedUnique(init1, init2);
    }
  }

  /**
   * `SortByDate` is the only stable sort: whatever sorts the events by date
   * and keeps equal dates in their original order gives exactly its result.
   */
  lemma StableSortIsSortByDate(r: seq<Event>, s: seq<Event>)
    ensures IsStableSortOf(r, s) <==> r == SortByDate(s)
  {
    SortByDateIsStableSort(s);
    if IsStableSortOf(r, s) {
      SortedUnique(r, SortByDate(s));
    }
  }

  lemma SortOne(e: Event)
    ensures SortByDate([e]) == [e]
  {
    assert [e][..0] == [];
  }

  /** Two events out of date order are swapped. */
  lemma SortTwo(first: Event, second: Event)
    requires DateLess(second.startDate, first.startDate)
    ensures SortByDate([first, second]) == [second, first]
  {
    assert [first, second][..1] == [first];
    SortOne(first);
    assert Insert([first], second) == Insert([], second) + [first];
  }

  /** Two events already in date order stay as they are. */
  lemma SortTwoInOrder(first: Event, second: Event)
    requires !DateLess(second.startDate, first.startDate)
    ensures SortByDate([first, second]) == [first, second]
  {
    assert [first, second][..1] == [first];
    SortOne(first);
  }

  /** Sorting what is already sorted changes nothing. */
  lemma {:induction false} SortByDateOfSorted(s: seq<Event>)
    requires SortedByDate(s)
    ensures SortByDate(s) == s
    decreases |s|
  {
    if s != [] {
      var init := s[..|s| - 1];
      assert SortedByDate(init);
      SortByDateOfSorted(init);
      if |init| > 0 {
        assert !DateLess(s[|s| - 1].startDate, init[|init| - 1].startDate);
      }
      InitLast(s);
    }
  }

  /** Sorting twice is sorting once. */
  lemma SortByDateIdempotent(s: seq<Event>)
    ensures SortByDate(SortByDate(s)) == SortByDate(s)
  {
    SortByDateSorted(s);
    SortByDateOfSorted(SortByDate(s));
  }

  /**
   * Where `e` lands: after a prefix whose last date is not above its own,
   * before a suffix of strictly later dates.
   */
  lemma {:induction false} InsertAt(sorted: seq<Event>, j: nat, e: Event)
    requires j <= |sorted|
    requires j == 0 || !DateLess(e.startDate, sorted[j - 1].startDate)
    requires forall k :: j <= k < |sorted| ==> DateLess(e.startDate, sorted[k].startDate)
    ensures Insert(sorted, e) == sorted[..j] + [e] + sorted[j..]
    decreases |sorted|
  {
    if j == |sorted| {
      assert sorted[..j] == sorted && sorted[j..] == [];
    } else {
      var init := sorted[..|sorted| - 1];
      assert j == 0 || init[j - 1] == sorted[j - 1];
      assert forall k :: j <= k < |init| ==> init[k] == sorted[k];
      InsertAt(init, j, e);
      SplitSnoc(sorted, j, e);
    }
  }

  lemma SortByDatePrefix(s: seq<Event>, i: nat)
    requires i < |s|
    ensures SortByDate(s[..i + 1]) == Insert(SortByDate(s[..i]), s[i])
  {
    assert s[..i + 1][..i] == s[..i];
  }

  /** Inserts `a[i]` into the prefix `a[..i]`, shifting the later-dated elements up by one. */
  method InsertInPlace(a: array<Event>, i: nat)
    requires i < a.Length
    modifies a
    ensures a[..i + 1] == Insert(old(a[..i]), old(a[i]))
    ensures a[i + 1..] == old(a[i + 1..])
  {
    ghost var sorted, rest := a[..i], a[i + 1..];
    var e := a[i];
    var j := ShiftLater(a, i, e);
    InsertAt(sorted, j, e);
    a[j] := e;
    Reassembled(a[..i + 1], sorted, j, e);
    EqualPointwise(a[i + 1..], rest);
  }

  /**
   * The inner loop: moves the elements of `a[..i]` dated after `e` up by
   * one, from the right, and returns the slot left for `e`.
   */
  method ShiftLater(a: array<Event>, i: nat, e: Event) returns (j: nat)
    requires i < a.Length
    modifies a
    ensures j <= i
    ensures forall k :: 0 <= k < j ==> a[k] == old(a[k])
    ensures forall k :: j < k <= i ==> a[k] == old(a[k - 1])
    ensures forall k :: i < k < a.Length ==> a[k] == old(a[k])
    ensures j == 0 || !DateLess(e.startDate, old(a[j - 1]).startDate)
    ensures forall k :: j <= k < i ==> DateLess(e.startDate, old(a[k]).startDate)
  {
    j := i;
    while j > 0 && DateLess(e.startDate, a[j - 1].startDate)
      invariant 0 <= j <= i
      invariant forall k :: 0 <= k < j ==> a[k] == old(a[k])
      invariant forall k :: j < k <= i ==> a[k] == old(a[k - 1])
      invariant forall k :: i < k < a.Length ==> a[k] == old(a[k])
      invariant forall k :: j <= k < i ==> DateLess(e.startDate, old(a[k]).startDate)
    {
      a[j] := a[j - 1];
      j := j - 1;
    }
  }

  /** Stable insertion sort of `a`, in place. */
  method InsertionSortByDate(a: array<Event>)
    modifies a
    ensures a[..] == SortByDate(old(a[..]))
  {
    ghost var input := a[..];
    var i := 0;
    while i < a.Length
      invariant 0 <= i <= a.Length
      invariant a[..i] == SortByDate(input[..i])
      invariant a[i..] == input[i..]
    {
      InsertInPlace(a, i);
      SortByDatePrefix(input, i);
      i := i + 1;
    }
    assert input[..a.Length] == input;
  }
}
