/**
 * One animation frame of the enemy traffic: the lane lists are rebuilt from
 * the cars sorted by height, and then each car in that order is advanced or
 * held back, recycled to the top of the road once it has passed the bottom,
 * and checked for a collision with the player's car.
 *
 * The functions here state what a frame does to the numbers; MoveFrame
 * performs the same frame step by step and is proved to agree with
 * MoveEnemies, and the session's Tick method stores what MoveFrame returns.
 */
module Traffic {
  import opened Road
  import opened Lanes

  /** What a frame changes: the enemy cars, the lane lists and whether the game is still on. */
  datatype Frame = Frame(cars: seq<Car>, lanes: LaneMap, active: bool)

  /** What a frame reads and leaves alone: the speed, the road's height and the player's car. */
  datatype World = World(speed: int, roadHeight: int, player: Rect)

  /** The rectangle an enemy car occupies. */
  function EnemyRect(car: Car): Rect {
    Rect(car.left, car.top, CarWidth, CarHeight)
  }

  ghost predicate Ok(f: Frame) {
    WellFormed(f.cars, f.lanes) && InLanes(f.cars)
  }

  ghost predicate Partitioned(f: Frame) {
    Partition(f.cars, f.lanes)
  }

  /**
   * Car c is held back: another car of its lane is below it, with less
   * than SafeGap between the two tops.
   */
  ghost predicate BlockedBelow(cars: seq<Car>, c: nat)
    requires c < |cars|
  {
    exists j :: 0 <= j < |cars| && j != c && cars[j].left == cars[c].left &&
      cars[c].top < cars[j].top < cars[c].top + SafeGap
  }

  /** The test the frame makes: find the nearest car below in the lane list and compare the gap. */
  function CanMove(f: Frame, c: nat): bool
    requires Ok(f) && c < |f.cars|
  {
    var car := f.cars[c];
    var below := CarsBelow(f.cars, f.lanes[car.left], c, car.top);
    |below| == 0 || f.cars[Closest(f.cars, below, below[0])].top - car.top >= SafeGap
  }

  /** A car moves down by the current speed unless it is held back. */
  function Advance(f: Frame, w: World, c: nat): (r: Frame)
    requires Ok(f) && c < |f.cars|
    ensures Ok(r) && |r.cars| == |f.cars| && r.lanes == f.lanes && r.active == f.active
    ensures forall j :: 0 <= j < |f.cars| ==> r.cars[j].left == f.cars[j].left
  {
    if CanMove(f, c) then f.(cars := f.cars[c := f.cars[c].(top := f.cars[c].top + w.speed)])
    else f
  }

  /**
   * A car whose top has passed the bottom of the road is put back above it,
   * in lane LanePositions[choice]: just above the road when that lane's
   * highest car is far enough down, otherwise SafeGap plus a jitter above
   * that car.  Its index moves from its old lane list to the end of the new
   * one.
   */
  function Recycle(f: Frame, w: World, c: nat, choice: nat, jitter: nat): (r: Frame)
    requires Ok(f) && c < |f.cars| && choice < |LanePositions|
    ensures Ok(r) && |r.cars| == |f.cars| && r.active == f.active
  {
    var car := f.cars[c];
    if car.top <= w.roadHeight then f
    else
      var newLane := LanePositions[choice];
      var newTop := RecycleTop(f.cars, f.lanes[newLane], jitter);
      Frame(f.cars[c := Car(newTop, newLane)], Relist(f.cars, f.lanes, c, car.left, newLane), f.active)
  }

  /**
   * The top a recycled car is given in a lane whose list is `target`: just
   * above the road, unless the lane's highest car is less than SafeGap down
   * the road, in which case SafeGap plus the jitter above that car.
   */
  function RecycleTop(cars: seq<Car>, target: seq<nat>, jitter: nat): int
    requires Indexes(cars, target)
  {
    if |target| > 0 && MinTop(cars, target) < SafeGap
    then MinTop(cars, target) - SafeGap - jitter
    else -CarHeight
  }

  /** The recycled car gets a negative top, at least SafeGap above every car of the lane list. */
  lemma RecycleTopAbove(cars: seq<Car>, target: seq<nat>, jitter: nat)
    requires Indexes(cars, target)
    ensures RecycleTop(cars, target, jitter) < 0
    ensures forall j :: j in target ==> RecycleTop(cars, target, jitter) + SafeGap <= cars[j].top
  {
    if |target| > 0 {
      MinTopIsLeast(cars, target);
    }
  }

  /**
   * Takes car c out of the list of lane `from` (its first occurrence, when
   * it is listed there) and then appends it to the list of lane `to`.
   */
  function Relist(cars: seq<Car>, lanes: LaneMap, c: nat, from: int, to: int): (r: LaneMap)
    requires c < |cars| && WellFormed(cars, lanes) && from in lanes && to in lanes
    ensures WellFormed(cars, r)
  {
    var removed := Unlist(cars, lanes, c, from);
    removed[to := removed[to] + [c]]
  }

  /**
   * Moving a listed car from one lane list to another takes one occurrence
   * out of the first and adds one to the second; moving it within its own
   * lane keeps the lane's cars.
   */
  lemma RelistCounts(cars: seq<Car>, lanes: LaneMap, c: nat, from: int, to: int)
    requires c < |cars| && WellFormed(cars, lanes) && from in lanes && to in lanes
    ensures var r := Relist(cars, lanes, c, from, to);
      && (c in lanes[from] && from != to ==> multiset(r[from]) == multiset(lanes[from]) - multiset{c})
      && (from != to ==> multiset(r[to]) == multiset(lanes[to]) + multiset{c})
      && (c in lanes[from] && from == to ==> multiset(r[to]) == multiset(lanes[to]))
      && (forall x :: x in lanes && x != from && x != to ==> r[x] == lanes[x])
  {
    RelistMovedLanes(cars, lanes, c, from, to);
    RelistOtherLanes(cars, lanes, c, from, to);
  }

  lemma RelistMovedLanes(cars: seq<Car>, lanes: LaneMap, c: nat, from: int, to: int)
    requires c < |cars| && WellFormed(cars, lanes) && from in lanes && to in lanes
    ensures var r := Relist(cars, lanes, c, from, to);
      && (c in lanes[from] && from != to ==> multiset(r[from]) == multiset(lanes[from]) - multiset{c})
      && (from != to ==> multiset(r[to]) == multiset(lanes[to]) + multiset{c})
      && (c in lanes[from] && from == to ==> multiset(r[to]) == multiset(lanes[to]))
  {
    var removed := Unlist(cars, lanes, c, from);
    UnlistCounts(cars, lanes, c, from);
    var r := removed[to := removed[to] + [c]];
    assert multiset(removed[to] + [c]) == multiset(removed[to]) + multiset{c};
    if from != to {
      assert r[from] == removed[from];
      assert removed[to] == lanes[to];
    }
  }

  lemma RelistOtherLanes(cars: seq<Car>, lanes: LaneMap, c: nat, from: int, to: int)
    requires c < |cars| && WellFormed(cars, lanes) && from in lanes && to in lanes
    ensures var r := Relist(cars, lanes, c, from, to);
      forall x :: x in lanes && x != from && x != to ==> r[x] == lanes[x]
  {
    var removed := Unlist(cars, lanes, c, from);
    UnlistCounts(cars, lanes, c, from);
    var r := removed[to := removed[to] + [c]];
    forall x | x in lanes && x != from && x != to ensures r[x] == lanes[x] {
      assert r[x] == removed[x];
    }
  }

  /** Takes the first occurrence of car c, if any, out of the list of lane `from`. */
  function Unlist(cars: seq<Car>, lanes: LaneMap, c: nat, from: int): (r: LaneMap)
    requires WellFormed(cars, lanes) && from in lanes
    ensures WellFormed(cars, r)
  {
    var oldList := lanes[from];
    var i := IndexOf(oldList, c);
    if i == -1 then lanes
    else
      assert forall k :: 0 <= k < |oldList| - 1 ==> RemoveAt(oldList, i)[k] in oldList;
      lanes[from := RemoveAt(oldList, i)]
  }

  /** Unlisting takes one occurrence of c out of lane `from`, if it had one, and changes no other lane. */
  lemma UnlistCounts(cars: seq<Car>, lanes: LaneMap, c: nat, from: int)
    requires WellFormed(cars, lanes) && from in lanes
    ensures var r := Unlist(cars, lanes, c, from);
      && multiset(r[from]) == multiset(lanes[from]) - multiset{c}
      && forall x :: x in lanes && x != from ==> r[x] == lanes[x]
  {
    var oldList := lanes[from];
    IndexOfFinds(oldList, c);
    var i := IndexOf(oldList, c);
    if i == -1 {
      assert multiset(oldList)[c] == 0;
    } else {
      RemoveAtCounts(oldList, i);
    }
  }

  /** The collision check: a hit while the game is on ends the game. */
  function Collide(f: Frame, w: World, c: nat): (r: Frame)
    requires c < |f.cars|
    ensures r.cars == f.cars && r.lanes == f.lanes
    ensures r.active <==> f.active && !Overlaps(w.player, EnemyRect(f.cars[c]))
  {
    if f.active && Overlaps(w.player, EnemyRect(f.cars[c])) then f.(active := false) else f
  }

  /** Everything a frame does to one car. */
  function Step(f: Frame, w: World, c: nat, choice: nat, jitter: nat): (r: Frame)
    requires Ok(f) && c < |f.cars| && choice < |LanePositions|
    ensures Ok(r) && |r.cars| == |f.cars|
    ensures r.active ==> f.active
  {
    Collide(Recycle(Advance(f, w, c), w, c, choice, jitter), w, c)
  }

  /** The first k cars of `order` handled one after the other; car order[i] uses choice[i] and jitter[i]. */
  function Steps(f: Frame, w: World, order: seq<nat>, choice: seq<nat>, jitter: seq<nat>, k: nat): (r: Frame)
    requires Ok(f) && k <= |order| && k <= |choice| && k <= |jitter|
    requires forall i :: 0 <= i < |order| ==> order[i] < |f.cars|
    requires forall i :: 0 <= i < k ==> choice[i] < |LanePositions|
    ensures Ok(r) && |r.cars| == |f.cars|
    ensures r.active ==> f.active
    decreases k
  {
    if k == 0 then f
    else Step(Steps(f, w, order, choice, jitter, k - 1), w, order[k - 1], choice[k - 1], jitter[k - 1])
  }

  /**
   * A whole frame.  Nothing happens once the game is over; otherwise the
   * lane lists are rebuilt from the cars sorted by height and every car is
   * handled in that order.
   */
  function MoveEnemies(f: Frame, w: World, choice: seq<nat>, jitter: seq<nat>): (r: Frame)
    requires InLanes(f.cars)
    requires |choice| == |f.cars| && |jitter| == |f.cars|
    requires forall i :: 0 <= i < |choice| ==> choice[i] < |LanePositions|
    requires f.active ==> f.lanes.Keys == {LeftLane, RightLane}
  {
    if !f.active then f
    else
      var order := SortedByTop(f.cars);
      Steps(f.(lanes := Rebuild(f.cars, order)), w, order, choice, jitter, |order|)
  }

  // ---------------------------------------------------------------------
  // A frame, step by step
  // ---------------------------------------------------------------------

  /** Car c moves down by the speed unless the nearest car below it in its lane list is too close. */
  method AdvanceCar(f: Frame, w: World, c: nat) returns (r: Frame)
    requires Ok(f) && c < |f.cars|
    ensures r == Advance(f, w, c)
  {
    var currentTop := f.cars[c].top;
    var currentLane := f.cars[c].left;
    var carsBelowInLane := CarsBelow(f.cars, f.lanes[currentLane], c, currentTop);
    var canMove := true;
    if |carsBelowInLane| > 0 {
      var closest := Closest(f.cars, carsBelowInLane, carsBelowInLane[0]);
      if f.cars[closest].top - currentTop < SafeGap {
        canMove := false;
      }
    }
    r := f;
    if canMove {
      currentTop := currentTop + w.speed;
      r := f.(cars := f.cars[c := Car(currentTop, currentLane)]);
    }
  }

  /**
   * Car c, once past the bottom of the road, is put back above it in lane
   * LanePositions[choice], spliced out of its old lane list and pushed onto
   * the new one.
   */
  method RecycleCar(f: Frame, w: World, c: nat, choice: nat, jitter: nat) returns (r: Frame)
    requires Ok(f) && c < |f.cars| && choice < |LanePositions|
    ensures r == Recycle(f, w, c, choice, jitter)
  {
    r := f;
    var currentTop := f.cars[c].top;
    var currentLane := f.cars[c].left;
    if currentTop > w.roadHeight {
      var newLane := LanePositions[choice];
      var newTop := -CarHeight;
      if |f.lanes[newLane]| > 0 {
        var highestCarTop := MinTop(f.cars, f.lanes[newLane]);
        if highestCarTop < SafeGap {
          newTop := highestCarTop - SafeGap - jitter;
        }
      }
      var lanes := f.lanes;
      var oldLaneIndex := IndexOf(lanes[currentLane], c);
      if oldLaneIndex != -1 {
        lanes := lanes[currentLane := RemoveAt(lanes[currentLane], oldLaneIndex)];
      }
      lanes := lanes[newLane := lanes[newLane] + [c]];
      r := Frame(f.cars[c := Car(newTop, newLane)], lanes, f.active);
    }
  }

  /**
   * A whole frame, car by car: while the game is on, the lane lists are
   * rebuilt from the cars sorted by height, and each car in that order is
   * advanced, recycled and checked against the player's car.
   */
  method MoveFrame(f: Frame, w: World, choice: seq<nat>, jitter: seq<nat>) returns (r: Frame)
    requires InLanes(f.cars)
    requires |choice| == |f.cars| && |jitter| == |f.cars|
    requires forall i :: 0 <= i < |choice| ==> choice[i] < |LanePositions|
    requires f.active ==> f.lanes.Keys == {LeftLane, RightLane}
    ensures r == MoveEnemies(f, w, choice, jitter)
  {
    if !f.active {
      return f;
    }
    var order := SortedByTop(f.cars);
    var lanes := RebuildLanes(f.cars, order);
    var start := f.(lanes := lanes);
    r := start;
    var k := 0;
    while k < |order|
      invariant 0 <= k <= |order|
      invariant r == Steps(start, w, order, choice, jitter, k)
    {
      var c := order[k];
      r := AdvanceCar(r, w, c);
      r := RecycleCar(r, w, c, choice[k], jitter[k]);
      r := Collide(r, w, c);
      k := k + 1;
    }
  }

  // ---------------------------------------------------------------------
  // What a frame guarantees
  // ---------------------------------------------------------------------

  /** The nearest-car-below test answers exactly whether the car is held back. */
  lemma CanMoveIffNotBlocked(f: Frame, c: nat)
    requires Partitioned(f) && c < |f.cars|
    ensures CanMove(f, c) <==> !BlockedBelow(f.cars, c)
  {
    var car := f.cars[c];
    var lane: seq<nat> := f.lanes[car.left];
    var below := CarsBelow(f.cars, lane, c, car.top);
    CarsBelowMembers(f.cars, lane, c, car.top);
    if |below| > 0 {
      ClosestIsHighest(f.cars, below, below[0]);
    }
    if BlockedBelow(f.cars, c) {
      var j :| 0 <= j < |f.cars| && j != c && f.cars[j].left == car.left &&
        car.top < f.cars[j].top < car.top + SafeGap;
      assert multiset(lane)[j] == 1;
      assert j in below;
      assert f.cars[Closest(f.cars, below, below[0])].top <= f.cars[j].top;
    }
    if !CanMove(f, c) {
      var k := Closest(f.cars, below, below[0]);
      assert k in below;
      assert multiset(lane)[k] > 0;
      assert f.cars[k].left == car.left;
    }
  }

  /**
   * A car moves down by exactly the speed when no car of its lane is below
   * it by less than SafeGap, and stays where it is otherwise; nothing else
   * changes.
   */
  lemma AdvanceMovesUnlessBlocked(f: Frame, w: World, c: nat)
    requires Partitioned(f) && c < |f.cars|
    ensures var r := Advance(f, w, c);
      && r.lanes == f.lanes && r.active == f.active
      && r.cars == f.cars[c := Car(f.cars[c].top + (if BlockedBelow(f.cars, c) then 0 else w.speed), f.cars[c].left)]
  {
    CanMoveIffNotBlocked(f, c);
  }

  /** Moving a car down keeps the lane lists a partition. */
  lemma AdvanceKeepsPartition(f: Frame, w: World, c: nat)
    requires Partitioned(f) && c < |f.cars|
    ensures Partitioned(Advance(f, w, c))
  {
  }

  /**
   * What recycling does to car c: a car whose top has not passed the road's
   * height is left where it is and the frame is unchanged; a car that has
   * passed it moves to the chosen lane, above the road (a negative top), and
   * at least SafeGap above every other car of that lane, while the number of
   * cars and every other car stay as they were.
   */
  lemma RecyclePlacement(f: Frame, w: World, c: nat, choice: nat, jitter: nat)
    requires Partitioned(f) && c < |f.cars| && choice < |LanePositions|
    ensures var r := Recycle(f, w, c, choice, jitter);
      f.cars[c].top <= w.roadHeight ==> r == f
    ensures var r := Recycle(f, w, c, choice, jitter); var newLane := LanePositions[choice];
      f.cars[c].top > w.roadHeight ==>
      && |r.cars| == |f.cars| && r.active == f.active
      && r.cars[c].left == newLane
      && r.cars[c].top < 0
      && (forall j :: 0 <= j < |f.cars| && j != c && f.cars[j].left == newLane ==>
            r.cars[c].top + SafeGap <= f.cars[j].top)
      && (forall j :: 0 <= j < |f.cars| && j != c ==> r.cars[j] == f.cars[j])
  {
    if f.cars[c].top > w.roadHeight {
      var newLane := LanePositions[choice];
      var newTop := RecycleTop(f.cars, f.lanes[newLane], jitter);
      RecycleTopAbove(f.cars, f.lanes[newLane], jitter);
      forall j | 0 <= j < |f.cars| && j != c && f.cars[j].left == newLane
        ensures newTop + SafeGap <= f.cars[j].top
      {
        assert multiset(f.lanes[newLane])[j] == 1;
      }
    }
  }

  /**
   * Recycling keeps the lane lists a partition: the car leaves its old lane
   * list and is listed exactly once in its new one.
   */
  lemma RecycleKeepsPartition(f: Frame, w: World, c: nat, choice: nat, jitter: nat)
    requires Partitioned(f) && c < |f.cars| && choice < |LanePositions|
    ensures var r := Recycle(f, w, c, choice, jitter);
      && Partitioned(r)
      && (f.cars[c].top > w.roadHeight ==>
            && multiset(r.lanes[LanePositions[choice]])[c] == 1
            && (f.cars[c].left != LanePositions[choice] ==> multiset(r.lanes[f.cars[c].left])[c] == 0))
  {
    if f.cars[c].top > w.roadHeight {
      var from := f.cars[c].left;
      var newLane := LanePositions[choice];
      var cars := f.cars[c := Car(RecycleTop(f.cars, f.lanes[newLane], jitter), newLane)];
      var lanes := Relist(f.cars, f.lanes, c, from, newLane);
      assert Recycle(f, w, c, choice, jitter) == Frame(cars, lanes, f.active);
      assert multiset(f.lanes[from])[c] == 1;
      RelistCounts(f.cars, f.lanes, c, from, newLane);
      RelistedCounts(f.cars, f.lanes, cars, lanes, c, from, newLane);
    }
  }

  /** The counting argument behind RecycleKeepsPartition, on the new cars and lane lists. */
  lemma RelistedCounts(cars0: seq<Car>, lanes0: LaneMap, cars: seq<Car>, lanes: LaneMap, c: nat, from: int, to: int)
    requires Partition(cars0, lanes0) && c < |cars0| && cars0[c].left == from && IsLane(to)
    requires |cars| == |cars0| && cars[c].left == to
    requires forall d :: 0 <= d < |cars| && d != c ==> cars[d] == cars0[d]
    requires WellFormed(cars, lanes)
    requires from != to ==> multiset(lanes[from]) == multiset(lanes0[from]) - multiset{c}
    requires from != to ==> multiset(lanes[to]) == multiset(lanes0[to]) + multiset{c}
    requires from == to ==> multiset(lanes[to]) == multiset(lanes0[to])
    requires forall x :: x in lanes0 && x != from && x != to ==> lanes[x] == lanes0[x]
    ensures Partition(cars, lanes)
  {
    assert InLanes(cars) by {
      forall d | 0 <= d < |cars| ensures IsLane(cars[d].left) {
        if d != c {
          assert cars[d] == cars0[d];
        }
      }
    }
    forall x, d | x in lanes && 0 <= d < |cars|
      ensures multiset(lanes[x])[d] == (if cars[d].left == x then 1 else 0)
    {
      var m0 := multiset(lanes0[x])[d];
      var m := multiset(lanes[x])[d];
      assert m0 == (if cars0[d].left == x then 1 else 0);
      if x != from && x != to {
        assert lanes[x] == lanes0[x];
      } else if from == to {
        assert m == m0;
      } else if x == from {
        assert m == m0 - (if d == c then 1 else 0);
      } else {
        assert m == m0 + (if d == c then 1 else 0);
      }
      if d != c {
        assert cars[d] == cars0[d];
      }
    }
  }

  /** Handling one car keeps the lane lists a partition. */
  lemma StepKeepsPartition(f: Frame, w: World, c: nat, choice: nat, jitter: nat)
    requires Partitioned(f) && c < |f.cars| && choice < |LanePositions|
    ensures Partitioned(Step(f, w, c, choice, jitter))
  {
    var a := Advance(f, w, c);
    AdvanceKeepsPartition(f, w, c);
    RecycleKeepsPartition(a, w, c, choice, jitter);
  }

  lemma {:induction false} StepsKeepPartition(f: Frame, w: World, order: seq<nat>, choice: seq<nat>, jitter: seq<nat>, k: nat)
    requires Partitioned(f) && k <= |order| && k <= |choice| && k <= |jitter|
    requires forall i :: 0 <= i < |order| ==> order[i] < |f.cars|
    requires forall i :: 0 <= i < k ==> choice[i] < |LanePositions|
    ensures Partitioned(Steps(f, w, order, choice, jitter, k))
    decreases k
  {
    if k > 0 {
      StepsKeepPartition(f, w, order, choice, jitter, k - 1);
      var g := Steps(f, w, order, choice, jitter, k - 1);
      assert Partitioned(g);
      StepKeepsPartition(g, w, order[k - 1], choice[k - 1], jitter[k - 1]);
    }
  }

  /**
   * A frame of a game that is on keeps the number of cars, keeps every car
   * in a lane and leaves the lane lists partitioning the cars; a frame of a
   * game that is over changes nothing; and a game that is over stays over.
   */
  lemma MoveEnemiesKeepsPartition(f: Frame, w: World, choice: seq<nat>, jitter: seq<nat>)
    requires InLanes(f.cars)
    requires |choice| == |f.cars| && |jitter| == |f.cars|
    requires forall i :: 0 <= i < |choice| ==> choice[i] < |LanePositions|
    requires f.active ==> f.lanes.Keys == {LeftLane, RightLane}
    ensures var r := MoveEnemies(f, w, choice, jitter);
      && |r.cars| == |f.cars|
      && (r.active ==> f.active)
      && (!f.active ==> r == f)
      && (f.active ==> Partitioned(r))
  {
    if f.active {
      var order := SortedByTop(f.cars);
      RebuildPartitions(f.cars, order);
      StepsKeepPartition(f.(lanes := Rebuild(f.cars, order)), w, order, choice, jitter, |order|);
    }
  }
}
