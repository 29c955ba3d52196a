/**
 * Score and difficulty: the two difficulty tables, and the score timer that
 * adds a point per tick and speeds the enemies up at every multiple of
 * fifty points.
 */
module Score {

  /** The difficulty named in the browser's stored setting; Unset is any other value. */
  datatype Difficulty = Easy | Medium | Hard | Unset

  /** Enemy speed chosen when the script loads, before the first start. */
  function LoadSpeed(d: Difficulty): int {
    match d
    case Easy => 10
    case Medium => 11
    case Hard => 12
    case Unset => 5
  }

  const LoadIncrement: int := 8

  /** Enemy speed set by every start and restart of a game. */
  function StartSpeed(d: Difficulty): int {
    match d
    case Easy => 5
    case Medium => 6
    case Hard => 7
    case Unset => 5
  }

  const StartIncrement: int := 4

  /** Every Milestone points the enemies speed up. */
  const Milestone: nat := 50

  /** The numbers the score timer works on. */
  datatype Progress = Progress(score: nat, speed: int, increment: int, lastMilestone: nat)

  /**
   * One tick of the score timer: one more point, and one speed-up when the
   * new score is a positive multiple of Milestone that has not been
   * rewarded yet.
   */
  function ScoreStep(p: Progress): (r: Progress)
    ensures r.score == p.score + 1 && r.increment == p.increment
    ensures r.speed == p.speed || r.speed == p.speed + p.increment
    ensures r.lastMilestone != p.lastMilestone ==>
      r.lastMilestone == r.score && r.score % Milestone == 0 && r.speed == p.speed + p.increment
    ensures r.lastMilestone == p.lastMilestone ==> r.speed == p.speed
  {
    var score := p.score + 1;
    if score > 0 && score % Milestone == 0 && score != p.lastMilestone then
      Progress(score, p.speed + p.increment, p.increment, score)
    else
      p.(score := score)
  }

  /**
   * The timer is on schedule for a game that started at `base` speed: the
   * last rewarded milestone is the highest one reached, and the speed has
   * gone up once per milestone reached.
   */
  ghost predicate OnSchedule(p: Progress, base: int) {
    && p.lastMilestone == (p.score / Milestone) * Milestone
    && p.speed == base + p.increment * (p.score / Milestone)
  }

  /**
   * On schedule, a tick keeps the timer on schedule, and it speeds the
   * enemies up exactly when the new score is a multiple of Milestone.
   */
  lemma ScoreStepOnSchedule(p: Progress, base: int)
    requires OnSchedule(p, base)
    ensures OnSchedule(ScoreStep(p), base)
    ensures ScoreStep(p).speed == p.speed + (if (p.score + 1) % Milestone == 0 then p.increment else 0)
  {
    var q := p.score / Milestone;
    if (p.score + 1) % Milestone == 0 {
      assert (p.score + 1) / Milestone == q + 1;
      assert p.lastMilestone < p.score + 1;
      assert p.increment * (q + 1) == p.increment * q + p.increment;
    } else {
      assert (p.score + 1) / Milestone == q;
    }
  }

  /** The timer after k ticks. */
  function ScoreTicks(p: Progress, k: nat): Progress
    decreases k
  {
    if k == 0 then p else ScoreStep(ScoreTicks(p, k - 1))
  }

  /**
   * From a fresh start, k ticks give score k, and the speed has gone up by
   * the increment exactly once for each positive multiple of Milestone up
   * to k: never twice for the same milestone, never skipping one.
   */
  lemma {:induction false} SpeedAfterTicks(base: int, increment: int, k: nat)
    ensures ScoreTicks(Progress(0, base, increment, 0), k)
      == Progress(k, base + increment * (k / Milestone), increment, (k / Milestone) * Milestone)
  {
    var p := ScoreTicks(Progress(0, base, increment, 0), k);
    OnScheduleAfterTicks(base, increment, k);
    assert p.score == k && p.increment == increment;
  }

  lemma {:induction false} OnScheduleAfterTicks(base: int, increment: int, k: nat)
    ensures var p := ScoreTicks(Progress(0, base, increment, 0), k);
      OnSchedule(p, base) && p.score == k && p.increment == increment
    decreases k
  {
    if k > 0 {
      OnScheduleAfterTicks(base, increment, k - 1);
      ScoreStepOnSchedule(ScoreTicks(Progress(0, base, increment, 0), k - 1), base);
    }
  }
}
