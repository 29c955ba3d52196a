/**
 * The game session: the mutable state of one page of the car game and the
 * handlers that change it.  The key handler steers the player's car, the
 * score timer counts points and speeds the game up, the animation frame
 * moves the enemy traffic, the collision check ends the game, and a start
 * resets everything and runs the first frame.
 *
 * The layout of the page (the road's height, the player's car's offset and
 * size) is fixed when the session is created.  Every random number the
 * script draws is passed in by the caller.
 */
module Game {
  import opened Road
  import opened Score
  import opened Lanes
  import opened Traffic
  import opened Placement

  class Session {
    /** The difficulty stored in the browser; read once, when the script loads. */
    const difficulty: Difficulty
    const roadHeight: int
    const playerTop: int
    const playerWidth: int
    const playerHeight: int

    var gameActive: bool
    var score: nat
    var gameSpeed: int
    var speedIncrement: int
    var lastSpeedIncreaseScore: nat
    /** Whether the score timer has been set and not cleared since. */
    var scoreTimerRunning: bool
    var carLeft: int
    var cars: seq<Car>
    var laneTracker: LaneMap
    /** The speed the current game started with. */
    ghost var baseSpeed: int

    /**
     * The player's car is on the road, the lane lists partition the enemy
     * cars, and the speed has gone up once per milestone of the score.
     */
    ghost predicate Valid()
      reads this
    {
      && MinLeft <= carLeft <= MaxLeft
      && Partitioned(State())
      && OnSchedule(Timer(), baseSpeed)
    }

    /** The numbers the score timer works on. */
    function Timer(): Progress
      reads this`score, this`gameSpeed, this`speedIncrement, this`lastSpeedIncreaseScore
    {
      Progress(score, gameSpeed, speedIncrement, lastSpeedIncreaseScore)
    }

    /** What an animation frame changes. */
    function State(): Frame
      reads this`cars, this`laneTracker, this`gameActive
    {
      Frame(cars, laneTracker, gameActive)
    }

    function PlayerRect(): Rect
      reads this`carLeft
    {
      Rect(carLeft, playerTop, playerWidth, playerHeight)
    }

    /** What an animation frame reads. */
    function Scene(): World
      reads this`gameSpeed, this`carLeft
    {
      World(gameSpeed, roadHeight, PlayerRect())
    }

    /**
     * The script loading: the game is on, the score is zero, the speed comes
     * from the load-time difficulty table, the player's car is centred and
     * the enemy cars are placed by PlaceEnemies.  The page holds pageCars
     * enemy cars, and EnemyCarCount are created when it holds none.
     */
    constructor (difficulty: Difficulty, roadHeight: int, playerTop: int, playerWidth: int, playerHeight: int,
                 pageCars: nat, laneChoice: seq<nat>, firstJitter: seq<nat>, nextJitter: seq<nat>)
      requires var n := if pageCars == 0 then EnemyCarCount else pageCars;
        |laneChoice| == n && |firstJitter| == n && |nextJitter| == n
      requires forall i :: 0 <= i < |laneChoice| ==> laneChoice[i] < |LanePositions|
      requires forall i :: 0 <= i < |laneChoice| ==> firstJitter[i] < 200 && nextJitter[i] < 100
      ensures Valid()
      ensures this.difficulty == difficulty && this.roadHeight == roadHeight
      ensures this.playerTop == playerTop && this.playerWidth == playerWidth && this.playerHeight == playerHeight
      ensures gameActive && score == 0 && lastSpeedIncreaseScore == 0 && !scoreTimerRunning
      ensures gameSpeed == LoadSpeed(difficulty) && speedIncrement == LoadIncrement
      ensures carLeft == StartLeft
      ensures |cars| == |laneChoice| && Placed(cars, laneTracker, laneChoice, firstJitter, nextJitter)
    {
      this.difficulty := difficulty;
      this.roadHeight := roadHeight;
      this.playerTop := playerTop;
      this.playerWidth := playerWidth;
      this.playerHeight := playerHeight;
      gameActive := true;
      score := 0;
      scoreTimerRunning := false;
      gameSpeed := LoadSpeed(difficulty);
      speedIncrement := LoadIncrement;
      lastSpeedIncreaseScore := 0;
      baseSpeed := LoadSpeed(difficulty);
      carLeft := StartLeft;
      var n := if pageCars == 0 then EnemyCarCount else pageCars;
      var placed, lanes := PlaceEnemies(n, laneChoice, firstJitter, nextJitter);
      cars := placed;
      laneTracker := lanes;
    }

    /**
     * A key press: while the game is on, an arrow key steers the player's
     * car by one step, stopping at the edge of the road; once the game is
     * over keys do nothing.
     */
    method KeyDown(key: Key)
      requires Valid()
      modifies this`carLeft
      ensures Valid()
      ensures carLeft == if gameActive then Steered(old(carLeft), key) else old(carLeft)
    {
      if !gameActive {
        return;
      }
      if key == ArrowLeft {
        carLeft := Max(MinLeft, carLeft - CarStep);
      } else if key == ArrowRight {
        carLeft := Min(MaxLeft, carLeft + CarStep);
      }
    }

    /**
     * One tick of the score timer, when it is running: one more point, and
     * one speed-up at each milestone not rewarded yet.
     */
    method ScoreTick()
      requires Valid()
      modifies this`score, this`gameSpeed, this`lastSpeedIncreaseScore
      ensures Valid()
      ensures Timer() == if scoreTimerRunning then ScoreStep(old(Timer())) else old(Timer())
    {
      if !scoreTimerRunning {
        return;
      }
      ScoreStepOnSchedule(Timer(), baseSpeed);
      score := score + 1;
      if score > 0 && score % Milestone == 0 && score != lastSpeedIncreaseScore {
        gameSpeed := gameSpeed + speedIncrement;
        lastSpeedIncreaseScore := score;
      }
    }

    /** The end of the game: it is over and the score timer is cleared. */
    method GameOver()
      requires Valid()
      modifies this`gameActive, this`scoreTimerRunning
      ensures Valid()
      ensures !gameActive && !scoreTimerRunning
    {
      gameActive := false;
      scoreTimerRunning := false;
    }

    /**
     * The collision check for enemy car c, as a stand-alone handler: while
     * the game is on, an overlap of the two cars' rectangles ends the game;
     * otherwise nothing changes.  Its effect on the frame is Collide, which
     * is what MoveFrame applies to each car during a frame.
     */
    method CheckCarCollision(c: nat)
      requires Valid() && c < |cars|
      modifies this`gameActive, this`scoreTimerRunning
      ensures Valid()
      ensures State() == Collide(old(State()), Scene(), c)
      ensures var hit := old(gameActive) && Overlaps(PlayerRect(), EnemyRect(cars[c]));
        && gameActive == (old(gameActive) && !hit)
        && scoreTimerRunning == (old(scoreTimerRunning) && !hit)
    {
      if !gameActive {
        return;
      }
      var playerBottom := playerTop + playerHeight;
      var playerRight := carLeft + playerWidth;
      var enemyTop := cars[c].top;
      var enemyBottom := enemyTop + CarHeight;
      var enemyLeft := cars[c].left;
      var enemyRight := enemyLeft + CarWidth;
      if carLeft < enemyRight && playerRight > enemyLeft && playerTop < enemyBottom && playerBottom > enemyTop {
        GameOver();
      }
    }

    /**
     * One animation frame.  While the game is on, MoveFrame rebuilds the
     * lane lists from the cars sorted by height and handles every car in
     * that order; the cars and lane lists it returns are the session's new
     * ones, and a collision during the frame ends the game and clears the
     * score timer.  Once the game is over a frame does nothing.
     */
    method Tick(laneChoice: seq<nat>, jitter: seq<nat>)
      requires Valid()
      requires |laneChoice| == |cars| && |jitter| == |cars|
      requires forall i :: 0 <= i < |cars| ==> laneChoice[i] < |LanePositions| && jitter[i] < 100
      modifies this`cars, this`laneTracker, this`gameActive, this`scoreTimerRunning
      ensures Valid()
      ensures State() == MoveEnemies(old(State()), Scene(), laneChoice, jitter)
      ensures scoreTimerRunning == (old(scoreTimerRunning) && !(old(gameActive) && !gameActive))
    {
      if !gameActive {
        return;
      }
      var r := MoveFrame(State(), Scene(), laneChoice, jitter);
      MoveEnemiesKeepsPartition(State(), Scene(), laneChoice, jitter);
      cars, laneTracker := r.cars, r.lanes;
      if !r.active {
        GameOver();
      }
    }

    /**
     * The first half of a start: the game is on again, the score timer's
     * numbers are reset, the player's car is centred and the enemy cars are
     * put back above the road.
     */
    method Reset(startLanes: seq<nat>)
      requires |startLanes| == |cars|
      requires forall i :: 0 <= i < |startLanes| ==> startLanes[i] < |LanePositions|
      modifies this`gameActive, this`score, this`gameSpeed, this`speedIncrement, this`lastSpeedIncreaseScore
      modifies this`carLeft, this`cars, this`laneTracker, this`baseSpeed
      ensures Valid()
      ensures gameActive && carLeft == StartLeft
      ensures Timer() == Progress(0, StartSpeed(difficulty), StartIncrement, 0)
      ensures cars == ResetCars(startLanes)
      ensures laneTracker == Rebuild(cars, Indices(|cars|))
    {
      gameActive := true;
      ResetScore();
      carLeft := StartLeft;
      ResetTraffic(startLanes);
    }

    /**
     * The score is zero, no milestone has been rewarded, and the speed and
     * its increment come from the start-time difficulty table.
     */
    method ResetScore()
      modifies this`score, this`gameSpeed, this`speedIncrement, this`lastSpeedIncreaseScore, this`baseSpeed
      ensures Timer() == Progress(0, StartSpeed(difficulty), StartIncrement, 0)
      ensures OnSchedule(Timer(), baseSpeed)
    {
      score := 0;
      gameSpeed := StartSpeed(difficulty);
      speedIncrement := StartIncrement;
      lastSpeedIncreaseScore := 0;
      baseSpeed := gameSpeed;
    }

    /**
     * Car idx is put at StartPosition in lane startLanes[idx], and the lane
     * lists are rebuilt from the cars in list order, which partitions them.
     */
    method ResetTraffic(startLanes: seq<nat>)
      requires |startLanes| == |cars|
      requires forall i :: 0 <= i < |startLanes| ==> startLanes[i] < |LanePositions|
      modifies this`cars, this`laneTracker
      ensures Partition(cars, laneTracker)
      ensures cars == ResetCars(startLanes)
      ensures laneTracker == Rebuild(cars, Indices(|cars|))
    {
      var placed := ResetPositions(cars, startLanes);
      var everyCar := Indices(|placed|);
      var lanes := RebuildLanes(placed, everyCar);
      IndicesCounts(|placed|);
      RebuildPartitions(placed, everyCar);
      cars := placed;
      laneTracker := lanes;
    }

    /**
     * A start (and a restart, which is the same call): Reset, then the
     * first animation frame, run straight away, and then the score timer is
     * set.
     */
    method StartGame(startLanes: seq<nat>, laneChoice: seq<nat>, jitter: seq<nat>)
      requires |startLanes| == |cars| && |laneChoice| == |cars| && |jitter| == |cars|
      requires forall i :: 0 <= i < |cars| ==> startLanes[i] < |LanePositions|
      requires forall i :: 0 <= i < |cars| ==> laneChoice[i] < |LanePositions| && jitter[i] < 100
      modifies this`gameActive, this`score, this`gameSpeed, this`speedIncrement, this`lastSpeedIncreaseScore
      modifies this`carLeft, this`cars, this`laneTracker, this`baseSpeed, this`scoreTimerRunning
      ensures Valid()
      ensures score == 0 && lastSpeedIncreaseScore == 0 && scoreTimerRunning
      ensures gameSpeed == StartSpeed(difficulty) && speedIncrement == StartIncrement
      ensures carLeft == StartLeft
      ensures var reset := ResetCars(startLanes);
        State() == MoveEnemies(Frame(reset, Rebuild(reset, Indices(|reset|)), true), Scene(), laneChoice, jitter)
    {
      Reset(startLanes);
      Tick(laneChoice, jitter);
      scoreTimerRunning := true;
    }
  }
}
