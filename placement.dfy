/**
 * Where the enemy cars start.  When the script loads, each car in turn is
 * put in a random lane, just above the road when the lane is still empty
 * and otherwise SafeGap plus a jitter above the highest car already there.
 * Every start of a game instead stacks the cars by index, SafeGap apart,
 * each in a random lane.
 */
module Placement {
  import opened Road
  import opened Lanes

  /**
   * The rule the load-time loop applies to car i: it drives in the chosen
   * lane, and its top is -CarHeight minus the first jitter when none of the
   * cars before it is in that lane, and otherwise SafeGap plus the second
   * jitter above the highest of them.
   */
  ghost predicate PlacedAt(cars: seq<Car>, i: nat, choice: seq<nat>, firstJitter: seq<nat>, nextJitter: seq<nat>)
    requires i < |cars| && i < |choice| && i < |firstJitter| && i < |nextJitter|
    requires choice[i] < |LanePositions|
  {
    var before := InLane(cars, Indices(i), cars[i].left);
    && cars[i].left == LanePositions[choice[i]]
    && cars[i].top == (if before == [] then -CarHeight - firstJitter[i]
                       else MinTop(cars, before) - SafeGap - nextJitter[i])
  }

  /** Cars in the same lane are at least SafeGap apart, later cars higher up. */
  ghost predicate Spaced(cars: seq<Car>) {
    forall i, j :: 0 <= i < j < |cars| && cars[i].left == cars[j].left ==>
      cars[j].top + SafeGap <= cars[i].top
  }

  /**
   * What the load-time loop leaves: every car follows PlacedAt, every car is
   * above the road, cars in one lane are SafeGap apart, and the lane lists
   * hold the cars of each lane in index order.
   */
  ghost predicate Placed(cars: seq<Car>, laneTracker: LaneMap,
                         choice: seq<nat>, firstJitter: seq<nat>, nextJitter: seq<nat>)
    requires |cars| == |choice| == |firstJitter| == |nextJitter|
    requires forall k :: 0 <= k < |choice| ==> choice[k] < |LanePositions|
  {
    PlacedSoFar(cars, laneTracker, |cars|, choice, firstJitter, nextJitter)
  }

  /** What the load-time loop has established after placing the first i cars. */
  ghost predicate PlacedSoFar(cars: seq<Car>, laneTracker: LaneMap, i: nat,
                              choice: seq<nat>, firstJitter: seq<nat>, nextJitter: seq<nat>)
    requires i <= |choice| && i <= |firstJitter| && i <= |nextJitter|
    requires forall k :: 0 <= k < i ==> choice[k] < |LanePositions|
  {
    && |cars| == i
    && laneTracker == Rebuild(cars, Indices(i))
    && (forall k :: 0 <= k < i ==> PlacedAt(cars, k, choice, firstJitter, nextJitter))
    && (forall k :: 0 <= k < i ==> cars[k].top <= -CarHeight)
    && Spaced(cars)
  }

  /**
   * The load-time placement of n cars.  Car i follows PlacedAt with the
   * lane laneChoice[i] and the jitters firstJitter[i] (below 200) and
   * nextJitter[i] (below 100).  Every car ends above the road, cars in one
   * lane are SafeGap apart, and the lane lists hold the cars of each lane
   * in index order, partitioning the cars.
   */
  method PlaceEnemies(n: nat, laneChoice: seq<nat>, firstJitter: seq<nat>, nextJitter: seq<nat>)
    returns (cars: seq<Car>, laneTracker: LaneMap)
    requires |laneChoice| == n && |firstJitter| == n && |nextJitter| == n
    requires forall i :: 0 <= i < n ==> laneChoice[i] < |LanePositions|
    requires forall i :: 0 <= i < n ==> firstJitter[i] < 200 && nextJitter[i] < 100
    ensures |cars| == n && Placed(cars, laneTracker, laneChoice, firstJitter, nextJitter)
    ensures Partition(cars, laneTracker)
  {
    cars := [];
    laneTracker := map[LeftLane := [], RightLane := []];
    var i := 0;
    while i < n
      invariant 0 <= i <= n
      invariant PlacedSoFar(cars, laneTracker, i, laneChoice, firstJitter, nextJitter)
    {
      var lane := LanePositions[laneChoice[i]];
      var newTop;
      if |laneTracker[lane]| == 0 {
        newTop := -CarHeight - firstJitter[i];
      } else {
        newTop := MinTop(cars, laneTracker[lane]) - SafeGap - nextJitter[i];
      }
      PlaceOne(cars, laneTracker, i, lane, newTop, laneChoice, firstJitter, nextJitter);
      cars := cars + [Car(newTop, lane)];
      laneTracker := laneTracker[lane := laneTracker[lane] + [i]];
      i := i + 1;
    }
    PlacedPartition(cars, laneTracker, n, laneChoice, firstJitter, nextJitter);
  }

  /** Once every car is placed, the lane lists partition the cars. */
  lemma PlacedPartition(cars: seq<Car>, laneTracker: LaneMap, n: nat,
                        choice: seq<nat>, firstJitter: seq<nat>, nextJitter: seq<nat>)
    requires n <= |choice| && n <= |firstJitter| && n <= |nextJitter|
    requires forall k :: 0 <= k < n ==> choice[k] < |LanePositions|
    requires PlacedSoFar(cars, laneTracker, n, choice, firstJitter, nextJitter)
    ensures Partition(cars, laneTracker)
  {
    assert InLanes(cars) by {
      forall k | 0 <= k < n ensures IsLane(cars[k].left) {
        assert PlacedAt(cars, k, choice, firstJitter, nextJitter);
      }
    }
    IndicesCounts(n);
    RebuildPartitions(cars, Indices(n));
  }

  /** One turn of the load-time loop keeps its invariant. */
  lemma PlaceOne(cars: seq<Car>, laneTracker: LaneMap, i: nat, lane: int, newTop: int,
                 choice: seq<nat>, firstJitter: seq<nat>, nextJitter: seq<nat>)
    requires i < |choice| && i < |firstJitter| && i < |nextJitter|
    requires forall k :: 0 <= k <= i ==> choice[k] < |LanePositions|
    requires lane == LanePositions[choice[i]]
    requires PlacedSoFar(cars, laneTracker, i, choice, firstJitter, nextJitter)
    requires newTop == (if |laneTracker[lane]| == 0 then -CarHeight - firstJitter[i]
                        else MinTop(cars, laneTracker[lane]) - SafeGap - nextJitter[i])
    ensures PlacedSoFar(cars + [Car(newTop, lane)], laneTracker[lane := laneTracker[lane] + [i]], i + 1,
                        choice, firstJitter, nextJitter)
  {
    var more := [Car(newTop, lane)];
    EarlierUnchanged(cars, more, i, choice, firstJitter, nextJitter);
    NewCarFollowsRule(cars, laneTracker, i, lane, newTop, choice, firstJitter, nextJitter);
    PushedIsRebuilt(cars, laneTracker, i, lane, newTop);
    NewCarAbove(cars, laneTracker[lane], i, lane, newTop);
  }

  /** Car i, placed with the lane list of the cars before it, follows PlacedAt. */
  lemma NewCarFollowsRule(cars: seq<Car>, laneTracker: LaneMap, i: nat, lane: int, newTop: int,
                          choice: seq<nat>, firstJitter: seq<nat>, nextJitter: seq<nat>)
    requires |cars| == i && i < |choice| && i < |firstJitter| && i < |nextJitter|
    requires choice[i] < |LanePositions| && lane == LanePositions[choice[i]]
    requires laneTracker == Rebuild(cars, Indices(i))
    requires newTop == (if |laneTracker[lane]| == 0 then -CarHeight - firstJitter[i]
                        else MinTop(cars, laneTracker[lane]) - SafeGap - nextJitter[i])
    ensures PlacedAt(cars + [Car(newTop, lane)], i, choice, firstJitter, nextJitter)
  {
    var next := cars + [Car(newTop, lane)];
    var listed: seq<nat> := laneTracker[lane];
    InLaneOfPrefix(cars, [Car(newTop, lane)], Indices(i), lane);
    assert InLane(next, Indices(i), lane) == listed;
    if |listed| > 0 {
      MinTopOfPrefix(cars, [Car(newTop, lane)], listed);
    }
  }

  /** Pushing car i onto its lane's list gives the lane lists of the first i + 1 cars. */
  lemma PushedIsRebuilt(cars: seq<Car>, laneTracker: LaneMap, i: nat, lane: int, newTop: int)
    requires |cars| == i && IsLane(lane)
    requires laneTracker == Rebuild(cars, Indices(i))
    ensures laneTracker[lane := laneTracker[lane] + [i]] == Rebuild(cars + [Car(newTop, lane)], Indices(i + 1))
  {
    var more := [Car(newTop, lane)];
    var rebuilt := Rebuild(cars + more, Indices(i + 1));
    var pushed := laneTracker[lane := laneTracker[lane] + [i]];
    LaneAfterPush(cars, more, i, LeftLane);
    LaneAfterPush(cars, more, i, RightLane);
    assert rebuilt.Keys == pushed.Keys;
    assert rebuilt[LeftLane] == pushed[LeftLane] && rebuilt[RightLane] == pushed[RightLane];
  }

  /** Car i ends above the road and SafeGap above every earlier car of its lane. */
  lemma NewCarAbove(cars: seq<Car>, listed: seq<nat>, i: nat, lane: int, newTop: int)
    requires |cars| == i
    requires listed == InLane(cars, Indices(i), lane)
    requires forall k :: 0 <= k < i ==> cars[k].top <= -CarHeight
    requires Spaced(cars)
    requires |listed| == 0 ==> newTop <= -CarHeight
    requires |listed| > 0 ==> newTop <= MinTop(cars, listed) - SafeGap
    ensures var next := cars + [Car(newTop, lane)];
      && (forall k :: 0 <= k <= i ==> next[k].top <= -CarHeight)
      && Spaced(next)
  {
    var next := cars + [Car(newTop, lane)];
    if |listed| > 0 {
      MinTopIsLeast(cars, listed);
      var j :| j in listed && MinTop(cars, listed) == cars[j].top;
      assert cars[j].top <= -CarHeight;
    }
    IndicesCounts(i);
    InLaneCounts(cars, Indices(i), lane);
    forall a, b | 0 <= a < b < |next| && next[a].left == next[b].left
      ensures next[b].top + SafeGap <= next[a].top
    {
      if b == i {
        assert multiset(listed)[a] == 1;
        assert a in listed;
      } else {
        assert next[a] == cars[a] && next[b] == cars[b];
      }
    }
  }

  /** The lane x list of the first i + 1 cars is that of the first i, with car i pushed when it drives in x. */
  lemma LaneAfterPush(cars: seq<Car>, more: seq<Car>, i: nat, x: int)
    requires |cars| == i && |more| == 1
    ensures InLane(cars + more, Indices(i + 1), x)
      == InLane(cars, Indices(i), x) + (if more[0].left == x then [i] else [])
  {
    var order := Indices(i + 1);
    var next := cars + more;
    assert order[..i] == Indices(i);
    assert Indexes(next, order);
    var r := InLane(next, order, x);
    assert r == InLane(next, order[..i], x) + (if next[order[i]].left == x then [order[i]] else []);
    InLaneOfPrefix(cars, more, Indices(i), x);
    assert next[i] == more[0];
  }

  /** Appending a car leaves the rule of every earlier car as it was. */
  lemma EarlierUnchanged(cars: seq<Car>, more: seq<Car>, i: nat, choice: seq<nat>, firstJitter: seq<nat>, nextJitter: seq<nat>)
    requires |cars| == i && i <= |choice| && i <= |firstJitter| && i <= |nextJitter|
    requires forall k :: 0 <= k < i ==> choice[k] < |LanePositions|
    requires forall k :: 0 <= k < i ==> PlacedAt(cars, k, choice, firstJitter, nextJitter)
    ensures forall k :: 0 <= k < i ==> PlacedAt(cars + more, k, choice, firstJitter, nextJitter)
  {
    forall k | 0 <= k < i
      ensures PlacedAt(cars + more, k, choice, firstJitter, nextJitter)
    {
      var before := InLane(cars, Indices(k), cars[k].left);
      InLaneOfPrefix(cars, more, Indices(k), cars[k].left);
      if before != [] {
        MinTopOfPrefix(cars, more, before);
      }
      assert PlacedAt(cars, k, choice, firstJitter, nextJitter);
    }
  }

  /** Where a start of the game puts car idx: stacked SafeGap apart by index, in the chosen lane. */
  function StartPosition(idx: nat, choice: nat): (car: Car)
    requires choice < |LanePositions|
    ensures IsLane(car.left) && car.top <= -CarHeight
  {
    Car(-CarHeight - idx * SafeGap, LanePositions[choice])
  }

  /** The cars as a start of the game leaves them, car idx in lane LanePositions[choice[idx]]. */
  function ResetCars(choice: seq<nat>): (cars: seq<Car>)
    requires forall i :: 0 <= i < |choice| ==> choice[i] < |LanePositions|
    ensures |cars| == |choice| && InLanes(cars)
    ensures forall i :: 0 <= i < |choice| ==> cars[i] == StartPosition(i, choice[i])
  {
    seq(|choice|, i requires 0 <= i < |choice| => StartPosition(i, choice[i]))
  }

  /**
   * The loop of a start that puts every car back above the road: car idx
   * goes to lane LanePositions[startLanes[idx]], idx times SafeGap higher
   * than the first.
   */
  method ResetPositions(cars: seq<Car>, startLanes: seq<nat>) returns (placed: seq<Car>)
    requires |startLanes| == |cars|
    requires forall i :: 0 <= i < |startLanes| ==> startLanes[i] < |LanePositions|
    ensures placed == ResetCars(startLanes)
  {
    placed := cars;
    var idx := 0;
    while idx < |placed|
      invariant 0 <= idx <= |placed| && |placed| == |startLanes|
      invariant forall k :: 0 <= k < idx ==> placed[k] == StartPosition(k, startLanes[k])
    {
      placed := placed[idx := Car(-CarHeight - idx * SafeGap, LanePositions[startLanes[idx]])];
      idx := idx + 1;
    }
  }

  /**
   * Any two cars placed by a start are at least SafeGap apart vertically,
   * whatever lanes they were given.
   */
  lemma StartPositionsApart(i: nat, j: nat, ci: nat, cj: nat)
    requires ci < |LanePositions| && cj < |LanePositions| && i != j
    ensures var a := StartPosition(i, ci); var b := StartPosition(j, cj);
      a.top - b.top >= SafeGap || b.top - a.top >= SafeGap
  {
    if i < j {
      assert j * SafeGap >= i * SafeGap + SafeGap;
    } else {
      assert i * SafeGap >= j * SafeGap + SafeGap;
    }
  }
}
