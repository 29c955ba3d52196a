/**
 * Enemy cars and the per-lane lists that track them.
 *
 * An enemy car is known by its index in the session's list of cars; a lane
 * list holds indices, so that two lists can refer to the same car.  The
 * functions in this module are the list operations the game loop uses:
 * sorting the cars by height, filtering a lane, the smallest top of a
 * lane, indexOf and splice.
 */
module Lanes {
  import opened Road

  /** The numeric state of one enemy car: its top edge and its lane's x-offset. */
  datatype Car = Car(top: int, left: int)

  /** The lane lists are keyed by the lanes' x-offsets. */
  type LaneMap = map<int, seq<nat>>

  /** Every car drives in one of the two lanes. */
  ghost predicate InLanes(cars: seq<Car>) {
    forall c :: 0 <= c < |cars| ==> IsLane(cars[c].left)
  }

  /** Both lanes have a list, and every listed index names a car. */
  ghost predicate WellFormed(cars: seq<Car>, lanes: LaneMap) {
    && lanes.Keys == {LeftLane, RightLane}
    && (forall x :: x in lanes ==> Indexes(cars, lanes[x]))
  }

  /**
   * The lane lists partition the cars: each car is listed exactly once, in
   * the list of the lane it drives in, and in no other list.
   */
  ghost predicate Partition(cars: seq<Car>, lanes: LaneMap) {
    && WellFormed(cars, lanes)
    && InLanes(cars)
    && forall x, c :: x in lanes && 0 <= c < |cars| ==>
         multiset(lanes[x])[c] == (if cars[c].left == x then 1 else 0)
  }

  // ---------------------------------------------------------------------
  // Sorting by height
  // ---------------------------------------------------------------------

  /**
   * Car a comes before car b in the sorted order: it is higher up, or at
   * the same height and earlier in the list of cars (the sort is stable).
   */
  predicate Before(cars: seq<Car>, a: nat, b: nat)
    requires a < |cars| && b < |cars|
  {
    cars[a].top < cars[b].top || (cars[a].top == cars[b].top && a < b)
  }

  ghost predicate Indexes(cars: seq<Car>, s: seq<nat>) {
    forall k :: 0 <= k < |s| ==> s[k] < |cars|
  }

  ghost predicate Sorted(cars: seq<Car>, s: seq<nat>)
    requires Indexes(cars, s)
  {
    forall i, j :: 0 <= i < j < |s| ==> Before(cars, s[i], s[j])
  }

  /** Inserts car x into a sorted list of other cars. */
  function Insert(cars: seq<Car>, s: seq<nat>, x: nat): (r: seq<nat>)
    requires x < |cars| && Indexes(cars, s) && Sorted(cars, s) && x !in s
    ensures Indexes(cars, r) && Sorted(cars, r)
    ensures |r| == |s| + 1
    ensures multiset(r) == multiset(s) + multiset{x}
    ensures forall y :: y in r <==> y in s || y == x
    decreases |s|
  {
    if s == [] then [x]
    else if Before(cars, x, s[0]) then [x] + s
    else
      var rest := Insert(cars, s[1..], x);
      assert s == [s[0]] + s[1..];
      SortedAfterHead(cars, s, x, rest);
      [s[0]] + rest
  }

  /** A car that comes first in a sorted list also comes before the car inserted behind it. */
  lemma SortedAfterHead(cars: seq<Car>, s: seq<nat>, x: nat, rest: seq<nat>)
    requires x < |cars| && Indexes(cars, s) && Sorted(cars, s) && |s| > 0 && x != s[0]
    requires !Before(cars, x, s[0])
    requires Indexes(cars, rest) && Sorted(cars, rest)
    requires forall y :: y in rest <==> y in s[1..] || y == x
    ensures Sorted(cars, [s[0]] + rest)
  {
    forall y | y in rest ensures Before(cars, s[0], y) {
      if y != x {
        var k :| 0 <= k < |s[1..]| && s[1..][k] == y;
        assert s[k + 1] == y;
      }
    }
    var r := [s[0]] + rest;
    forall i, j | 0 <= i < j < |r| ensures Before(cars, r[i], r[j]) {
      if i == 0 {
        assert r[j] == rest[j - 1] && rest[j - 1] in rest;
      } else {
        assert r[i] == rest[i - 1] && r[j] == rest[j - 1];
      }
    }
  }

  /** The cars 0 .. n-1, sorted by height. */
  function SortedPrefix(cars: seq<Car>, n: nat): (r: seq<nat>)
    requires n <= |cars|
    ensures |r| == n && Indexes(cars, r) && Sorted(cars, r)
    ensures forall k :: 0 <= k < |r| ==> r[k] < n
    ensures forall c :: 0 <= c < n ==> multiset(r)[c] == 1
    decreases n
  {
    if n == 0 then []
    else
      var s := SortedPrefix(cars, n - 1);
      assert n - 1 !in s;
      var r := Insert(cars, s, n - 1);
      assert forall k :: 0 <= k < |r| ==> r[k] in r;
      assert multiset(s)[n - 1] == 0;
      assert forall c :: 0 <= c < n ==> multiset(r)[c] == multiset(s)[c] + multiset{n - 1}[c];
      r
  }

  /**
   * The stable sort of all cars by their top edge, highest car first: every
   * car exactly once, in ascending order of top, ties kept in list order.
   */
  function SortedByTop(cars: seq<Car>): (order: seq<nat>)
    ensures |order| == |cars| && Indexes(cars, order) && Sorted(cars, order)
    ensures forall c :: 0 <= c < |cars| ==> multiset(order)[c] == 1
  {
    SortedPrefix(cars, |cars|)
  }

  /**
   * Any two sorted lists of the same cars are equal, so SortedByTop is the
   * order every stable sort by top produces.
   */
  lemma {:induction false} SortedOrderUnique(cars: seq<Car>, a: seq<nat>, b: seq<nat>)
    requires Indexes(cars, a) && Indexes(cars, b) && Sorted(cars, a) && Sorted(cars, b)
    requires multiset(a) == multiset(b)
    ensures a == b
    decreases |a|
  {
    if a != [] {
      assert a[0] in multiset(b);
      assert b[0] in multiset(a);
      HeadComesFirst(cars, a, b[0]);
      HeadComesFirst(cars, b, a[0]);
      SortedTail(cars, a);
      SortedTail(cars, b);
      SortedOrderUnique(cars, a[1..], b[1..]);
      assert a == [a[0]] + a[1..];
      assert b == [b[0]] + b[1..];
    }
  }

  /** Removing the first car keeps a list sorted and takes that car out of its multiset. */
  lemma SortedTail(cars: seq<Car>, s: seq<nat>)
    requires Indexes(cars, s) && Sorted(cars, s) && s != []
    ensures Indexes(cars, s[1..]) && Sorted(cars, s[1..])
    ensures multiset(s[1..]) == multiset(s) - multiset{s[0]}
  {
    assert s == [s[0]] + s[1..];
    forall i, j | 0 <= i < j < |s[1..]| ensures Before(cars, s[1..][i], s[1..][j]) {
      assert s[1..][i] == s[i + 1] && s[1..][j] == s[j + 1];
    }
  }

  /** In a sorted list the first car comes before every other car of the list. */
  lemma HeadComesFirst(cars: seq<Car>, s: seq<nat>, y: nat)
    requires Indexes(cars, s) && Sorted(cars, s) && y in s
    ensures s[0] == y || Before(cars, s[0], y)
  {
    var i :| 0 <= i < |s| && s[i] == y;
    if i > 0 {
      assert Before(cars, s[0], s[i]);
    }
  }

  // ---------------------------------------------------------------------
  // Rebuilding the lane lists
  // ---------------------------------------------------------------------

  /** The cars of `order` that drive in lane x, in the order they come in `order`. */
  function InLane(cars: seq<Car>, order: seq<nat>, x: int): (r: seq<nat>)
    requires Indexes(cars, order)
    ensures Indexes(cars, r)
    decreases |order|
  {
    if order == [] then []
    else
      var n := |order| - 1;
      var rest := InLane(cars, order[..n], x);
      if cars[order[n]].left == x then rest + [order[n]] else rest
  }

  /** Lane x lists each car of lane x as often as `order` does, and no other car. */
  lemma {:induction false} InLaneCounts(cars: seq<Car>, order: seq<nat>, x: int)
    requires Indexes(cars, order)
    ensures forall c :: 0 <= c < |cars| ==>
      multiset(InLane(cars, order, x))[c] == (if cars[c].left == x then multiset(order)[c] else 0)
    decreases |order|
  {
    if order != [] {
      var n := |order| - 1;
      assert order == order[..n] + [order[n]];
      InLaneCounts(cars, order[..n], x);
    }
  }

  /** The lane lists built by pushing the cars of `order`, one by one, onto their lane's list. */
  function Rebuild(cars: seq<Car>, order: seq<nat>): (lanes: LaneMap)
    requires Indexes(cars, order)
    ensures WellFormed(cars, lanes)
  {
    map[LeftLane := InLane(cars, order, LeftLane), RightLane := InLane(cars, order, RightLane)]
  }

  /** The lane lists are those that Rebuild makes from `order`, lane by lane. */
  ghost predicate Tracks(lanes: LaneMap, cars: seq<Car>, order: seq<nat>)
    requires Indexes(cars, order)
  {
    && lanes.Keys == {LeftLane, RightLane}
    && lanes[LeftLane] == InLane(cars, order, LeftLane)
    && lanes[RightLane] == InLane(cars, order, RightLane)
  }

  lemma TracksRebuild(lanes: LaneMap, cars: seq<Car>, order: seq<nat>)
    requires Indexes(cars, order) && Tracks(lanes, cars, order)
    ensures lanes == Rebuild(cars, order)
  {
  }

  /**
   * Pushing the next car of `order` onto the list of its lane turns the lane
   * lists of the first i cars of `order` into those of the first i + 1.
   */
  lemma TrackedPush(lanes: LaneMap, cars: seq<Car>, order: seq<nat>, i: nat)
    requires Indexes(cars, order) && i < |order| && IsLane(cars[order[i]].left)
    requires Tracks(lanes, cars, order[..i])
    ensures var x := cars[order[i]].left; Tracks(lanes[x := lanes[x] + [order[i]]], cars, order[..i + 1])
  {
    var longer := order[..i + 1];
    assert longer[..i] == order[..i];
  }

  /** The loop that rebuilds the lane lists: each car of `order`, in turn, is pushed onto its lane's list. */
  method RebuildLanes(cars: seq<Car>, order: seq<nat>) returns (lanes: LaneMap)
    requires Indexes(cars, order)
    requires forall k :: 0 <= k < |order| ==> IsLane(cars[order[k]].left)
    ensures lanes == Rebuild(cars, order)
  {
    lanes := map[LeftLane := [], RightLane := []];
    var i := 0;
    while i < |order|
      invariant 0 <= i <= |order|
      invariant Tracks(lanes, cars, order[..i])
    {
      var c := order[i];
      TrackedPush(lanes, cars, order, i);
      lanes := lanes[cars[c].left := lanes[cars[c].left] + [c]];
      i := i + 1;
    }
    assert order[..|order|] == order;
    TracksRebuild(lanes, cars, order);
  }

  /** Rebuilding from a list that names every car once partitions the cars by lane. */
  lemma RebuildPartitions(cars: seq<Car>, order: seq<nat>)
    requires Indexes(cars, order)
    requires InLanes(cars)
    requires forall c :: 0 <= c < |cars| ==> multiset(order)[c] == 1
    ensures Partition(cars, Rebuild(cars, order))
  {
    InLaneCounts(cars, order, LeftLane);
    InLaneCounts(cars, order, RightLane);
  }

  /** The indices 0 .. n-1 in increasing order: the cars in list order. */
  function Indices(n: nat): (r: seq<nat>)
    ensures |r| == n
    ensures forall k :: 0 <= k < n ==> r[k] == k
    decreases n
  {
    if n == 0 then [] else Indices(n - 1) + [n - 1]
  }

  /** Each of 0 .. n-1 occurs once in Indices(n). */
  lemma IndicesCounts(n: nat)
    ensures forall c :: 0 <= c < n ==> multiset(Indices(n))[c] == 1
  {
    var r := Indices(n);
    forall c | 0 <= c < n ensures multiset(r)[c] == 1 {
      assert r == r[..c] + [c] + r[c + 1..];
      assert c !in r[..c] && c !in r[c + 1..];
    }
  }

  /** Cars added after the end of the list change nothing about a lane of the earlier cars. */
  lemma {:induction false} InLaneOfPrefix(cars: seq<Car>, more: seq<Car>, order: seq<nat>, x: int)
    requires Indexes(cars, order)
    ensures InLane(cars + more, order, x) == InLane(cars, order, x)
    decreases |order|
  {
    if order != [] {
      InLaneOfPrefix(cars, more, order[..|order| - 1], x);
    }
  }

  /** Cars added after the end of the list leave the smallest top of a lane of earlier cars alone. */
  lemma {:induction false} MinTopOfPrefix(cars: seq<Car>, more: seq<Car>, s: seq<nat>)
    requires |s| > 0 && Indexes(cars, s)
    ensures MinTop(cars + more, s) == MinTop(cars, s)
    decreases |s|
  {
    if |s| > 1 {
      MinTopOfPrefix(cars, more, s[1..]);
    }
  }

  /** A sorted list of cars is split into sorted lane lists. */
  lemma {:induction false} InLaneSorted(cars: seq<Car>, order: seq<nat>, x: int)
    requires Indexes(cars, order) && Sorted(cars, order)
    ensures Sorted(cars, InLane(cars, order, x))
    decreases |order|
  {
    if order != [] {
      var n := |order| - 1;
      var last := order[n];
      InLaneSorted(cars, order[..n], x);
      var rest := InLane(cars, order[..n], x);
      InLaneCounts(cars, order[..n], x);
      forall y | y in rest
        ensures Before(cars, y, last)
      {
        assert multiset(rest)[y] > 0;
        assert y in order[..n];
        var i :| 0 <= i < n && order[..n][i] == y;
        assert order[i] == y;
      }
    }
  }

  /**
   * After the per-frame rebuild from the sorted cars, each lane list is in
   * ascending order of top, so its first car is the highest of its lane.
   */
  lemma RebuildSortedByTop(cars: seq<Car>, x: int)
    requires x in Rebuild(cars, SortedByTop(cars))
    ensures var l := Rebuild(cars, SortedByTop(cars))[x];
      forall i, j :: 0 <= i < j < |l| ==> cars[l[i]].top <= cars[l[j]].top
  {
    InLaneSorted(cars, SortedByTop(cars), x);
  }

  // ---------------------------------------------------------------------
  // Queries on one lane list
  // ---------------------------------------------------------------------

  /**
   * The cars of a lane list, other than c, whose top is greater than `top`:
   * the cars below car c (two filters applied one after the other).
   */
  function CarsBelow(cars: seq<Car>, lane: seq<nat>, c: nat, top: int): (r: seq<nat>)
    requires Indexes(cars, lane)
    ensures Indexes(cars, r)
    decreases |lane|
  {
    if lane == [] then []
    else
      (if lane[0] != c && cars[lane[0]].top > top then [lane[0]] else [])
      + CarsBelow(cars, lane[1..], c, top)
  }

  /** CarsBelow keeps exactly the cars of the lane list, other than c, whose top is greater than `top`. */
  lemma {:induction false} CarsBelowMembers(cars: seq<Car>, lane: seq<nat>, c: nat, top: int)
    requires Indexes(cars, lane)
    ensures forall j :: j in CarsBelow(cars, lane, c, top) <==> j in lane && j != c && cars[j].top > top
    decreases |lane|
  {
    if lane != [] {
      CarsBelowMembers(cars, lane[1..], c, top);
      assert lane == [lane[0]] + lane[1..];
    }
  }

  /**
   * The reduction that picks the highest car: starting from `acc`, keep a
   * car only when it is strictly higher than the one kept so far.
   */
  function Closest(cars: seq<Car>, s: seq<nat>, acc: nat): (r: nat)
    requires acc < |cars| && Indexes(cars, s)
    ensures r < |cars|
    decreases |s|
  {
    if s == [] then acc
    else Closest(cars, s[1..], if cars[s[0]].top < cars[acc].top then s[0] else acc)
  }

  /**
   * The reduction ends on `acc` or a car of the list, and no car of the list
   * and not `acc` is higher.
   */
  lemma {:induction false} ClosestIsHighest(cars: seq<Car>, s: seq<nat>, acc: nat)
    requires acc < |cars| && Indexes(cars, s)
    ensures var r := Closest(cars, s, acc);
      && (r == acc || r in s)
      && cars[r].top <= cars[acc].top
      && forall j :: j in s ==> cars[r].top <= cars[j].top
    decreases |s|
  {
    if s != [] {
      var next := if cars[s[0]].top < cars[acc].top then s[0] else acc;
      ClosestIsHighest(cars, s[1..], next);
      assert s == [s[0]] + s[1..];
    }
  }

  /** The smallest top among the cars of a non-empty lane list. */
  function MinTop(cars: seq<Car>, s: seq<nat>): int
    requires |s| > 0 && Indexes(cars, s)
    decreases |s|
  {
    if |s| == 1 then cars[s[0]].top
    else Min(cars[s[0]].top, MinTop(cars, s[1..]))
  }

  /** MinTop is the top of a car of the list, and no car of the list is higher. */
  lemma {:induction false} MinTopIsLeast(cars: seq<Car>, s: seq<nat>)
    requires |s| > 0 && Indexes(cars, s)
    ensures exists j :: j in s && MinTop(cars, s) == cars[j].top
    ensures forall j :: j in s ==> MinTop(cars, s) <= cars[j].top
    decreases |s|
  {
    if |s| == 1 {
      assert s[0] in s;
    } else {
      MinTopIsLeast(cars, s[1..]);
      assert s == [s[0]] + s[1..];
      if cars[s[0]].top <= MinTop(cars, s[1..]) {
        assert s[0] in s;
      } else {
        var j :| j in s[1..] && MinTop(cars, s[1..]) == cars[j].top;
        assert j in s;
      }
    }
  }

  /** The first position of x in s, or -1 when x is not in s. */
  function IndexOf(s: seq<nat>, x: nat): (i: int)
    ensures -1 <= i < |s|
    decreases |s|
  {
    if s == [] then -1
    else if s[0] == x then 0
    else
      var j := IndexOf(s[1..], x);
      if j == -1 then -1 else j + 1
  }

  /** IndexOf answers -1 exactly when x is missing, and otherwise the position of its first occurrence. */
  lemma {:induction false} IndexOfFinds(s: seq<nat>, x: nat)
    ensures IndexOf(s, x) == -1 <==> x !in s
    ensures var i := IndexOf(s, x); 0 <= i ==> s[i] == x && x !in s[..i]
    decreases |s|
  {
    if s != [] && s[0] != x {
      IndexOfFinds(s[1..], x);
      var j := IndexOf(s[1..], x);
      assert s == [s[0]] + s[1..];
      if j != -1 {
        assert s[..j + 1] == [s[0]] + s[1..][..j];
      }
    }
  }

  /** s without its element at position i. */
  function RemoveAt(s: seq<nat>, i: nat): (r: seq<nat>)
    requires i < |s|
    ensures |r| == |s| - 1
    ensures forall k :: 0 <= k < |r| ==> r[k] == if k < i then s[k] else s[k + 1]
  {
    s[..i] + s[i + 1..]
  }

  /** Removing position i takes exactly one occurrence of s[i] out of the list. */
  lemma RemoveAtCounts(s: seq<nat>, i: nat)
    requires i < |s|
    ensures multiset(RemoveAt(s, i)) == multiset(s) - multiset{s[i]}
  {
    assert s == s[..i] + [s[i]] + s[i + 1..];
  }
}
