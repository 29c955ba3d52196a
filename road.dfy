/**
 * The playing field of the car game: its fixed dimensions, the two enemy
 * lanes, steering of the player's car and the rectangle overlap test used
 * for collisions.  Every position is a whole number of pixels.
 */
module Road {

  const RoadWidth: int := 400
  const CarWidth: int := 100
  /** How far one arrow key moves the player's car. */
  const CarStep: int := 25
  /** How far the player's car may stick out over either edge of the road. */
  const Overhang: int := 10
  const MinLeft: int := -Overhang
  const MaxLeft: int := RoadWidth - CarWidth + Overhang
  /** The player's car starts centred on the road. */
  const StartLeft: int := (RoadWidth - CarWidth) / 2

  /** Height of an enemy car; its width is CarWidth. */
  const CarHeight: int := 350
  /** The vertical distance an enemy keeps to the next car below it in its lane. */
  const SafeGap: int := CarHeight + 100
  /** Number of enemy cars created when the page holds none. */
  const EnemyCarCount: nat := 3

  /** The x-offsets of the two enemy lanes. */
  const LeftLane: int := 0
  const RightLane: int := RoadWidth - CarWidth
  const LanePositions: seq<int> := [LeftLane, RightLane]

  predicate IsLane(x: int) {
    x == LeftLane || x == RightLane
  }

  function Max(a: int, b: int): int { if a < b then b else a }
  function Min(a: int, b: int): int { if a < b then a else b }

  // ---------------------------------------------------------------------
  // Steering
  // ---------------------------------------------------------------------

  datatype Key = ArrowLeft | ArrowRight | OtherKey

  /**
   * Where one key press puts the player's car.  On the road the car moves a
   * full step in the key's direction, except that it stops at the edge;
   * any other key leaves it where it is.
   */
  function Steered(left: int, key: Key): (r: int)
    ensures MinLeft <= left <= MaxLeft ==> MinLeft <= r <= MaxLeft
    ensures key == OtherKey ==> r == left
    ensures MinLeft <= left && key == ArrowLeft ==>
      left - CarStep <= r <= left && (r == left - CarStep || r == MinLeft)
    ensures left <= MaxLeft && key == ArrowRight ==>
      left <= r <= left + CarStep && (r == left + CarStep || r == MaxLeft)
  {
    match key
    case ArrowLeft => Max(MinLeft, left - CarStep)
    case ArrowRight => Min(MaxLeft, left + CarStep)
    case OtherKey => left
  }

  /** The position after a whole burst of key presses, handled in order. */
  function SteeredAll(left: int, keys: seq<Key>): int
    decreases |keys|
  {
    if keys == [] then left else SteeredAll(Steered(left, keys[0]), keys[1..])
  }

  /** However many keys are pressed, the car never leaves [MinLeft, MaxLeft]. */
  lemma {:induction false} SteeringStaysOnRoad(left: int, keys: seq<Key>)
    requires MinLeft <= left <= MaxLeft
    ensures MinLeft <= SteeredAll(left, keys) <= MaxLeft
    decreases |keys|
  {
    if keys != [] {
      SteeringStaysOnRoad(Steered(left, keys[0]), keys[1..]);
    }
  }

  // ---------------------------------------------------------------------
  // Rectangles and overlap
  // ---------------------------------------------------------------------

  /** An axis-aligned rectangle; x grows to the right, y grows downwards. */
  datatype Rect = Rect(left: int, top: int, width: int, height: int)

  /** The strict overlap test: all four edge comparisons are strict. */
  predicate Overlaps(p: Rect, e: Rect) {
    && p.left < e.left + e.width
    && p.left + p.width > e.left
    && p.top < e.top + e.height
    && p.top + p.height > e.top
  }

  /** Pixel (x, y) lies inside r, counting its left and top edges only. */
  predicate Covers(r: Rect, x: int, y: int) {
    r.left <= x < r.left + r.width && r.top <= y < r.top + r.height
  }

  /**
   * For rectangles of positive size, the strict overlap test holds exactly
   * when the two rectangles share at least one pixel.
   */
  lemma OverlapsIffSharedPixel(p: Rect, e: Rect)
    requires p.width > 0 && p.height > 0 && e.width > 0 && e.height > 0
    ensures Overlaps(p, e) <==> exists x, y :: Covers(p, x, y) && Covers(e, x, y)
  {
    if Overlaps(p, e) {
      var x, y := Max(p.left, e.left), Max(p.top, e.top);
      assert Covers(p, x, y) && Covers(e, x, y);
    }
  }
}
