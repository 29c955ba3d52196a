# Car game: a verified model of the game loop

This project models the game loop of the browser car game `Cargame.js`. It
is written in Dafny 4.11 and proves properties of the model.

The player steers a car left and right across a 400-pixel road. Enemy cars
come down two lanes, at x-offsets 0 and 300. A score timer adds a point per
tick and speeds the enemies up every 50 points. The game ends when the
player's car overlaps an enemy. A start or restart puts everything back.

Every quantity in the game loop is a whole number of pixels or points, so
the model works on unbounded integers throughout. The modules follow the
parts of the script:

- `Road` (road.dfy) holds the road's constants, steering of the player's
  car with clamping to [-10, 310], and the strict rectangle overlap test.
- `Score` (score.dfy) holds the two difficulty tables and one tick of the
  score timer, with its once-per-milestone speed-up.
- `Lanes` (lanes.dfy) holds the enemy cars and the per-lane lists that
  track them, and the list operations the frame uses:
  - the stable sort by `top`;
  - the lane-list rebuild;
  - the two filters that find the cars below a car;
  - the reduction that picks the closest of them;
  - `Math.min` over a lane;
  - `indexOf` and `splice`.
- `Traffic` (traffic.dfy) holds one animation frame (`moveEnemies`), stated
  as functions: per car, the advance-or-block step, the recycle step and
  the collision check. It also holds value-level methods that perform the
  same frame step by step, as the script's loops do, and are proved equal
  to those functions.
- `Placement` (placement.dfy) holds the load-time placement loop and the
  stacking of the cars that every start performs.
- `Game` (session.dfy) holds the class `Session`, which is the script's
  module-level state:
  - `gameActive`, `score`, `gameSpeed`, `speedIncrement`,
    `lastSpeedIncreaseScore` and `carLeft`;
  - the enemy cars;
  - the `laneTracker` lists;
  - a flag for whether the score interval is set.

  Its methods are the script's handlers, and each is proved against the
  functions above.

An enemy car is known by its index in the session's sequence of cars. A
lane list holds such indices, which stands for the script's lists of DOM
elements: two lists may name the same car, and `c !== car` becomes an index
comparison. Every `Math.random()` draw is an argument supplied by the
caller, with its range stated as a precondition:

- the lane choice, below 2;
- the jitter, below 200 or 100.

A frame's draws are indexed by the car's position in the sorted order. The
layout of the page is fixed when the session is created. That layout is the
road's height, and the player's car's `offsetTop`, `offsetWidth` and
`offsetHeight`.

The frame runs in the same order as the code. `startGame` calls
`moveEnemies()` directly (Cargame.js:298), before the score interval is set
again (Cargame.js:300-309). So `StartGame` is `Reset`, then one `Tick`, and
only then is the score timer running. A collision in that first frame
leaves the timer running, as the code does.

The model follows the code as written:

- Collision uses the plain strict overlap test, with no inward buffer.
- There is no spawner and no cap on the number of enemies.
- A recycled car's lane is chosen freely, with no preference for empty
  lanes.
- Positions and speeds are integers, not floating point.
- The script's initial state is "game on" (Cargame.js:15), not an idle
  state.
- Two cars of one lane are not kept `SAFE_GAP` apart from frame to frame.
  The blocking test at Cargame.js:160 lets a car move when the car below it
  is `SAFE_GAP` or more down the road. It moves by the whole speed even
  when that distance is less than `SAFE_GAP` plus the speed, and the lower
  car may itself be held back in the same frame (Cargame.js:147-167). For
  example, tops 0, 450 and 850 in one lane at speed 10 become 10, 450 and
  860: the top car has moved and the middle one is held, which leaves them
  440 apart. Separately, a large speed can carry a car past the one below
  it.

The score timer's numbers follow two difficulty tables. The one at
Cargame.js:22-34 is set when the script loads. The one at
Cargame.js:257-269 is set by every start, and since `window.onload` starts
the game, it is the one in force while playing.

## Model

| member | source | states |
|---|---|---|
| Road.Steered | Cargame.js:207-211 | An arrow key moves the car one step of 25 towards its side, stopping at -10 or 310: the result stays in range and is either a full step or the boundary. Any other key leaves the position alone. |
| Road.SteeringStaysOnRoad | Cargame.js:204-213 | However many keys are pressed in a row, the player's car stays in [-10, 310]. |
| Road.Overlaps | Cargame.js:229-232 | The collision test: all four strict edge inequalities between the player's rectangle and the enemy's. Its meaning is given by OverlapsIffSharedPixel. |
| Road.OverlapsIffSharedPixel | Cargame.js:229-232 | For rectangles of positive size, the four strict edge inequalities hold exactly when the rectangles share a pixel. |
| Score.LoadSpeed | Cargame.js:22-34 | The load-time speed table: 10, 11 and 12 for easy, medium and hard, and 5 for any other stored value; the increment is 8. |
| Score.StartSpeed | Cargame.js:257-269 | The start-time speed table: 5, 6 and 7 for easy, medium and hard, and 5 for any other stored value; the increment is 4. |
| Score.ScoreStep | Cargame.js:302-308 | A score tick adds exactly one point and leaves the increment alone. The speed changes only by one increment, and only when a new milestone is recorded, which then equals the new score and is a multiple of 50. |
| Score.ScoreStepOnSchedule | Cargame.js:302-308 | Once the speed has gone up once per milestone reached, a tick keeps it so. The tick adds the increment exactly when the new score is a multiple of 50. |
| Score.OnScheduleAfterTicks | Cargame.js:301-309 | From a fresh start, after k ticks the score is k and the timer is on schedule. |
| Score.SpeedAfterTicks | Cargame.js:301-309 | From a fresh start, after k ticks the speed is base + increment * (k / 50) and the last milestone is the highest multiple of 50 up to k. So each milestone bumps the speed exactly once. |
| Lanes.Insert | Cargame.js:138-140 | Inserting a car into a sorted list of other cars gives a sorted list with that car added once: one longer, the multiset grows by exactly that car, and the members are the old ones plus that car. |
| Lanes.SortedPrefix | Cargame.js:138-140 | The first n cars, sorted: n indices below n, each exactly once, in (top, index) order. |
| Lanes.SortedByTop | Cargame.js:138-140 | The sort of all cars lists every car exactly once, in ascending top, with ties in list order, as the stable sort does. |
| Lanes.SortedOrderUnique | Cargame.js:138-140 | Two sorted lists of the same cars are equal, so SortedByTop is the order any stable sort by top gives. |
| Lanes.InLane | Cargame.js:142-145 | The cars of the order that drive in lane x, pushed in order; every entry names a car. Its meaning is given by InLaneCounts and InLaneSorted. |
| Lanes.InLaneCounts | Cargame.js:142-145 | Lane x's rebuilt list holds each car of lane x as often as the sorted order does, and no car of the other lane. |
| Lanes.Rebuild | Cargame.js:133-145 | The rebuilt lane lists have a list for each of the two lanes, and every listed index names a car. |
| Lanes.RebuildLanes | Cargame.js:133-145 | The loop that empties both lists and pushes each car of the order onto its lane's list yields exactly Rebuild of that order. |
| Lanes.RebuildPartitions | Cargame.js:133-145 | Rebuilding from a list that names every car once partitions the cars: each car is in exactly one list, the one of its lane. |
| Lanes.InLaneSorted | Cargame.js:138-145 | Filtering a sorted list by lane keeps it sorted. |
| Lanes.RebuildSortedByTop | Cargame.js:133-145 | After the per-frame rebuild, each lane list is in ascending order of top. |
| Lanes.CarsBelow | Cargame.js:151-152 | The two filters over a lane list; every entry names a car. Its meaning is given by CarsBelowMembers. |
| Lanes.CarsBelowMembers | Cargame.js:151-152 | The two filters keep exactly the cars of the lane list, other than the car itself, whose top is greater than the car's. |
| Lanes.Closest | Cargame.js:156-158 | The reduce that keeps a car only when it is strictly higher than the one kept so far; it ends on a car. Its meaning is given by ClosestIsHighest. |
| Lanes.ClosestIsHighest | Cargame.js:156-158 | The reduction ends on its start value or on a car of the list, and no car of the list is higher. |
| Lanes.MinTop | Cargame.js:176-177 | `Math.min` of the tops of a non-empty lane list; the same operation at Cargame.js:117. Its meaning is given by MinTopIsLeast. |
| Lanes.MinTopIsLeast | Cargame.js:176-177 | `Math.min` over a non-empty lane list is the top of one of its cars, and no car of the list is higher. |
| Lanes.IndexOf | Cargame.js:187 | `indexOf`: a position of the list or -1. Its meaning is given by IndexOfFinds. |
| Lanes.IndexOfFinds | Cargame.js:187 | `indexOf` gives -1 exactly when the car is missing. Otherwise it gives the position of the car's first occurrence. |
| Lanes.RemoveAtCounts | Cargame.js:189 | `splice(i, 1)` takes exactly one occurrence of the element at i out of the list. |
| Lanes.RemoveAt | Cargame.js:189 | `splice(i, 1)` shortens the list by one: elements before i stay in place, and those after i move up by one. |
| Traffic.CanMove | Cargame.js:151-163 | The `canMove` test: no car below in the lane list, or the closest one SAFE_GAP or more further down. Its meaning is given by CanMoveIffNotBlocked. |
| Traffic.CanMoveIffNotBlocked | Cargame.js:151-163 | When the lane lists partition the cars, the nearest-car-below test says a car may move exactly when no other car of its lane is below it by less than SAFE_GAP. |
| Traffic.AdvanceMovesUnlessBlocked | Cargame.js:151-168 | A car's top grows by exactly the speed when no car of its lane is below it within SAFE_GAP. Otherwise it is unchanged. The lane lists, the other cars and the game state are untouched. |
| Traffic.Advance | Cargame.js:147-168 | The advance step keeps the lane lists, the game state, the number of cars and every car's lane. |
| Traffic.AdvanceKeepsPartition | Cargame.js:165-168 | Moving a car down keeps the lane lists a partition of the cars. |
| Traffic.RecycleTop | Cargame.js:174-181 | The recycled car's new top: -350, or SAFE_GAP plus the jitter above the new lane's highest car when that car is less than SAFE_GAP down the road. Its meaning is given by RecycleTopAbove. |
| Traffic.RecycleTopAbove | Cargame.js:174-181 | The new top of a recycled car is negative, and SafeGap or more above every car of the new lane's list. |
| Traffic.Recycle | Cargame.js:170-192 | Recycling keeps the number of cars, the game state and the well-formedness of the lane lists. What it does to each car, in both branches of the test at Cargame.js:170, is stated by RecyclePlacement. |
| Traffic.RecyclePlacement | Cargame.js:170-192 | A car whose top has not passed the road's height is not recycled: the frame is unchanged. A car whose top passed it gets the chosen lane's x-offset and a negative top. It ends at least SAFE_GAP above every other car of that lane. The number of cars and every other car are unchanged. |
| Traffic.Unlist | Cargame.js:187-190 | `indexOf` and, when the car is found, `splice` on the old lane's list; the lane lists stay well formed. Its meaning is given by UnlistCounts. |
| Traffic.UnlistCounts | Cargame.js:187-190 | Taking the car out of its old lane list removes one occurrence when it is listed there, and changes no other list. |
| Traffic.Relist | Cargame.js:187-191 | Unlist from the old lane, then `push` onto the new lane; the lane lists stay well formed. Its meaning is given by RelistCounts. |
| Traffic.RelistCounts | Cargame.js:187-191 | Moving the car between lane lists takes one occurrence out of the old list and adds one to the new. A move within one lane keeps that lane's cars. Other lanes are untouched. |
| Traffic.RecycleKeepsPartition | Cargame.js:187-191 | Recycling keeps the lane lists a partition. The recycled car appears exactly once in its new lane's list and no longer in its old one. |
| Traffic.Collide | Cargame.js:195 | After the collision check the game is on exactly when it was on and the car does not overlap the player's car. Cars and lane lists are untouched. |
| Traffic.Step | Cargame.js:147-196 | Handling one car keeps the lane lists well formed, every car in a lane and the number of cars. A game that is over stays over. |
| Traffic.Steps | Cargame.js:147-196 | Handling the cars one after another in the given order keeps the same facts as one car does. |
| Traffic.StepKeepsPartition | Cargame.js:147-196 | Handling one car keeps the lane lists a partition. |
| Traffic.StepsKeepPartition | Cargame.js:147-196 | Handling any number of cars in turn keeps the lane lists a partition. |
| Traffic.MoveEnemies | Cargame.js:130-201 | `moveEnemies`: nothing once the game is over; otherwise the lane lists are rebuilt from SortedByTop and Steps handles every car in that order. Its meaning is given by MoveEnemiesKeepsPartition; MoveFrame and Session.Tick are proved equal to it. |
| Traffic.MoveEnemiesKeepsPartition | Cargame.js:130-196 | A frame of a game that is on keeps the number of cars and leaves the lane lists partitioning the cars. A frame of a game that is over changes nothing. A game that is over stays over. |
| Traffic.AdvanceCar | Cargame.js:148-168 | The advance step, as the code does it with `canMove` and the closest car below, equals Advance. |
| Traffic.RecycleCar | Cargame.js:170-192 | The recycle step, as the code does it with `Math.min`, `indexOf`, `splice` and `push`, equals Recycle. |
| Traffic.MoveFrame | Cargame.js:130-196 | The frame's loops equal MoveEnemies. These are: the rebuild, then advance, recycle and collision check for each car in sorted order. |
| Placement.PlaceEnemies | Cargame.js:108-127 | The load-time loop places every car by the rule: in the chosen lane, at -350 minus the first jitter when that lane is still empty, otherwise SAFE_GAP plus the second jitter above the lane's highest car. Every car ends above the road. Cars of one lane end SAFE_GAP apart, later ones higher. The lane lists hold each lane's cars in index order and partition the cars. |
| Placement.NewCarFollowsRule | Cargame.js:113-119 | The lane list the loop reads is the one built from the earlier cars, so the new car's top follows the rule. |
| Placement.NewCarAbove | Cargame.js:113-122 | A newly placed car is above the road and SAFE_GAP above every earlier car of its lane. |
| Placement.StartPosition | Cargame.js:281-284 | A start puts a car in one of the two lanes, with its top at -350 or higher up the page. |
| Placement.ResetCars | Cargame.js:280-286 | A start keeps the number of cars, every car in a lane, and car idx at top -350 - idx * 450 in its chosen lane. |
| Placement.ResetPositions | Cargame.js:280-286 | The loop of a start that moves each car in turn yields exactly ResetCars. |
| Placement.StartPositionsApart | Cargame.js:284 | Any two cars placed by a start are at least SAFE_GAP apart vertically, whatever their lanes. |
| Game.Session.constructor | Cargame.js:15-127 | Loading the script sets up the game state. See the first note after this table. |
| Game.Session.KeyDown | Cargame.js:204-213 | While the game is on, a key steers the player's car as Steered does. Once it is over, keys change nothing. The session stays valid, so carLeft stays in [-10, 310]. |
| Game.Session.ScoreTick | Cargame.js:301-309 | While the timer is set, one tick is ScoreStep of the timer's numbers; once it is cleared, a tick changes nothing. The speed stays on schedule. |
| Game.Session.GameOver | Cargame.js:243-249 | The game is over and the score timer is cleared; the session stays valid. |
| Game.Session.CheckCarCollision | Cargame.js:216-235 | The stand-alone handler: the new frame state is Collide of the old. While the game is on, an overlap of the two rectangles ends the game and clears the timer. Otherwise, and always once the game is over, nothing changes. The session stays valid. |
| Game.Session.Tick | Cargame.js:130-201 | An animation frame makes the cars, the lane lists and the game state exactly MoveEnemies of the state before. The timer is cleared exactly when the frame ended the game, and the session stays valid. |
| Game.Session.ResetScore | Cargame.js:253-270 | The score and last milestone are zero. The speed and increment come from the table at lines 257-269 (5/6/7/5 and 4). |
| Game.Session.ResetTraffic | Cargame.js:280-293 | The cars are at ResetCars. The lane lists are rebuilt from the cars in list order, and they partition the cars. |
| Game.Session.Reset | Cargame.js:252-293 | Everything a start resets before its first frame. See the second note after this table. |
| Game.Session.StartGame | Cargame.js:252-314 | A start, or a restart, is everything Reset does, followed by one frame. See the third note after this table. |

Notes on the three longest rows:

1. `Game.Session.constructor`: the game is on, and the score and last
   milestone are zero. The speed and increment come from the load-time
   table at lines 22-34 (10/11/12/5 and 8). The player's car is at 150.
   The enemy cars follow Placed, as in PlaceEnemies. The score timer is not
   set, and the session is valid.
2. `Game.Session.Reset`: the game is on and the player's car is at 150. The
   timer's numbers are at their start values from the start-time table.
   The cars are at ResetCars, and the lane lists are their rebuild in list
   order. The session is valid: its lists partition the cars and the speed
   is on schedule.
3. `Game.Session.StartGame`: the cars, the lane lists and the game state
   are MoveEnemies of the reset state. The score and last milestone are
   zero, the speed and increment come from the start-time table, and the
   player's car is at 150. The score timer is set, and the session is
   valid.

## Left out

- The DOM and rendering are left out: element styles, images, the filter,
  the score read-out and the game-over screen. Only their numbers are
  modelled. The player car's offsets and the road's height are constants of
  the session.
- Every enemy is modelled with the 100 x 350 rectangle that the script
  gives the cars it creates (Cargame.js:90-91). Cars already on the page
  with other CSS sizes are not modelled.
- The road-line animation (`resetLineOffsets`, `animateRoadLines`,
  Cargame.js:47-65) is left out. It is decoration, and its spacing is a
  floating-point number.
- Scheduling is left out. The `requestAnimationFrame` rescheduling
  (Cargame.js:198-200) and the 100 ms `setInterval` are replaced by the
  caller invoking `Tick` and `ScoreTick`. `clearInterval` and
  `setInterval` become the `scoreTimerRunning` flag.
- `localStorage` is left out. The stored difficulty is an argument of the
  constructor.
- `Math.random` is left out. Its draws are arguments, as described above.
- `exitGame`, `window.close`, `alert` and the button wiring
  (Cargame.js:316-326) are left out. They are platform I/O.
- The `|| 0` fallbacks at Cargame.js:148-149 are left out. Every top and
  left the script writes is an integer, so `parseInt` never yields `NaN`
  there.
- `restartGame` (Cargame.js:312-314) is only `startGame()`, so it is
  modelled by `StartGame` itself.
- Game.Session.Tick: the cars are handled on a `Frame` value by
  `Traffic.MoveFrame`, and the session's fields are then assigned once,
  with `GameOver` called when the frame ended the game. This does not
  model the fields changing in place car by car. A collision that latches
  mid-frame gives the same final state, because every later check sees the
  game over and does nothing.
- Traffic.MoveEnemiesKeepsPartition: this does not state that two cars of
  one lane stay `SAFE_GAP` apart after a frame. The code does not keep that
  gap, as explained above.
