/**
 * Which tables are free at a given moment: the fixed tables 1..15 minus the
 * table numbers booked at exactly that timestamp.
 */
module Availability {
  import opened Models

  const FirstTable := 1
  const TableCount := 15

  /** `count` consecutive integers from `start`, as Enumerable.Range yields them. */
  function Range(start: int, count: nat): seq<int>
  {
    seq(count, i => start + i)
  }

  /** Range yields exactly the integers from `start` below `start + count`, ascending. */
  lemma RangeContents(start: int, count: nat)
    ensures forall x :: x in Range(start, count) <==> start <= x < start + count
    ensures StrictlyAscending(Range(start, count))
  {
    forall x | start <= x < start + count
      ensures x in Range(start, count)
    {
      assert Range(start, count)[x - start] == x;
    }
  }

  predicate StrictlyAscending(s: seq<int>)
  {
    forall i, j :: 0 <= i < j < |s| ==> s[i] < s[j]
  }

  predicate Distinct(s: seq<int>)
  {
    forall i, j :: 0 <= i < j < |s| ==> s[i] != s[j]
  }

  /** Some reservation occupies table `table` at exactly `dateTime`. */
  predicate IsBooked(rs: seq<Reservation>, dateTime: int, table: int)
  {
    exists r :: r in rs && r.dateTime == dateTime && r.tableNumber == table
  }

  /** The table numbers of the reservations at exactly `dateTime`, in store order (Where, then Select). */
  function BookedTables(rs: seq<Reservation>, dateTime: int): (booked: seq<int>)
    ensures forall x :: x in booked <==> IsBooked(rs, dateTime, x)
    decreases |rs|
  {
    if rs == [] then []
    else
      var rest := BookedTables(rs[1..], dateTime);
      assert forall r :: r in rs <==> r == rs[0] || r in rs[1..];
      if rs[0].dateTime == dateTime then [rs[0].tableNumber] + rest else rest
  }

  /**
   * Set difference with the sequence semantics of LINQ's Except: the elements
   * of `first`, in order, that are not in `second`, each yielded once.
   * A yielded element joins the excluded set, so later copies are dropped.
   */
  function Except(first: seq<int>, second: seq<int>): (r: seq<int>)
    ensures forall x :: x in r <==> x in first && x !in second
    ensures Distinct(r)
    ensures StrictlyAscending(first) ==> StrictlyAscending(r)
    decreases |first|
  {
    if first == [] then []
    else
      var e := first[0];
      if e in second then Except(first[1..], second)
      else
        var rest := Except(first[1..], second + [e]);
        assert forall x :: x in first <==> x == e || x in first[1..];
        assert StrictlyAscending(first) ==> forall x :: x in first[1..] ==> e < x;
        assert forall x :: x in second + [e] <==> x in second || x == e;
        assert forall k :: 0 <= k < |rest| ==> rest[k] in rest;
        [e] + rest
  }

  /** The tables free at exactly `dateTime`, in ascending order. */
  function AvailableTables(rs: seq<Reservation>, dateTime: int): (free: seq<int>)
    ensures forall x :: x in free <==> FirstTable <= x < FirstTable + TableCount && !IsBooked(rs, dateTime, x)
    ensures StrictlyAscending(free)
  {
    RangeContents(FirstTable, TableCount);
    Except(Range(FirstTable, TableCount), BookedTables(rs, dateTime))
  }

  /** Except leaves a duplicate-free list untouched when nothing in it is excluded. */
  lemma {:induction false} ExceptNothing(first: seq<int>, second: seq<int>)
    requires Distinct(first)
    requires forall x :: x in first ==> x !in second
    ensures Except(first, second) == first
    decreases |first|
  {
    if first != [] {
      var e := first[0];
      assert forall x :: x in first[1..] ==> x != e && x in first;
      ExceptNothing(first[1..], second + [e]);
    }
  }

  /** With nothing booked at `dateTime`, every table 1..15 is offered, in order. */
  lemma AvailableWhenNothingBooked(rs: seq<Reservation>, dateTime: int)
    requires forall r :: r in rs ==> r.dateTime != dateTime
    ensures AvailableTables(rs, dateTime) == Range(FirstTable, TableCount)
  {
    ExceptNothing(Range(FirstTable, TableCount), BookedTables(rs, dateTime));
  }
}
