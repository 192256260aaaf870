/**
 * main.py: one ball falls under gravity inside a circle; each time it
 * would leave the circle it is put back where it was, its radius grows by
 * one and its velocity is reflected. A halo around it cycles its hue up
 * and down. This module models the state of `Ball.update` and the hue
 * oscillator of the main loop. Arithmetic is on exact reals, and the
 * trigonometric reflection is a parameter.
 */
module MainScene {
  import opened Vectors

  const WIDTH: real := 700.0
  const HEIGHT: real := 700.0
  const INITIAL_RADIUS: int := 30
  const GRAVITY: real := 0.32
  const INITIAL_VELOCITY: real := -7.0

  /** `WIDTH / 2`, the radius of the boundary circle. */
  const BOUNDARY: real := WIDTH / 2.0

  /** `Vector2(WIDTH / 2, HEIGHT / 2)`, the centre of the boundary circle. */
  const CENTER: Vec := Vec(WIDTH / 2.0, HEIGHT / 2.0)

  /** Squared distance from `p` to the centre. */
  function DistSq(p: Vec): (d: real)
    ensures d >= 0.0
  {
    Sq(p.x - CENTER.x) + Sq(p.y - CENTER.y)
  }

  /**
   * `check_collision` for a ball at `p` with radius `r`: its squared
   * distance from the centre exceeds the square of `WIDTH / 2 - r`.
   */
  predicate Collides(p: Vec, r: int) {
    DistSq(p) > Sq(BOUNDARY - r as real)
  }

  /** The fields of a `Ball` that `update` reads or writes. */
  datatype BallState = BallState(position: Vec, velocity: Vec, radius: int, gravity: Vec, prevPos: Vec)

  /**
   * `update` on values: save the position, move by the velocity, add
   * gravity to the velocity, and on a collision grow the radius, go back to
   * the saved position and take the velocity `reflect` gives for that
   * position and the new velocity.
   */
  function UpdateState(s: BallState, reflect: (Vec, Vec) -> Vec): (r: BallState)
    ensures r.prevPos == s.position && r.gravity == s.gravity
    ensures Collides(s.position.Plus(s.velocity), s.radius) ==>
      r.radius == s.radius + 1 && r.position == r.prevPos && r.velocity == reflect(r.prevPos, s.velocity.Plus(s.gravity))
    ensures !Collides(s.position.Plus(s.velocity), s.radius) ==>
      r.radius == s.radius && r.position == r.prevPos.Plus(s.velocity) && r.velocity == s.velocity.Plus(s.gravity)
  {
    var moved := s.position.Plus(s.velocity);
    var accelerated := s.velocity.Plus(s.gravity);
    if Collides(moved, s.radius) then
      BallState(s.position, reflect(s.position, accelerated), s.radius + 1, s.gravity, s.position)
    else
      BallState(moved, accelerated, s.radius, s.gravity, s.position)
  }

  /** The state after `n` calls of `update`. */
  function UpdatesAfter(s: BallState, n: nat, reflect: (Vec, Vec) -> Vec): (r: BallState)
    ensures r.gravity == s.gravity
  {
    if n == 0 then s else UpdateState(UpdatesAfter(s, n - 1, reflect), reflect)
  }

  /** Number of bounces during the first `n` calls of `update`. */
  function Bounces(s: BallState, n: nat, reflect: (Vec, Vec) -> Vec): (k: nat)
    ensures k <= n
  {
    if n == 0 then 0
    else
      var before := UpdatesAfter(s, n - 1, reflect);
      Bounces(s, n - 1, reflect) + (if Collides(before.position.Plus(before.velocity), before.radius) then 1 else 0)
  }

  /** The radius grows by exactly one per bounce and never shrinks. */
  lemma {:induction false} RadiusCountsBounces(s: BallState, n: nat, reflect: (Vec, Vec) -> Vec)
    ensures UpdatesAfter(s, n, reflect).radius == s.radius + Bounces(s, n, reflect)
    ensures s.radius <= UpdatesAfter(s, n, reflect).radius <= s.radius + n
  {
    if n > 0 {
      RadiusCountsBounces(s, n - 1, reflect);
    }
  }

  /**
   * After any number of updates, `prevPos` is where the last update started,
   * and the ball is either there (it bounced) or one velocity step on.
   */
  lemma PrevPosIsLastStart(s: BallState, n: nat, reflect: (Vec, Vec) -> Vec)
    requires n > 0
    ensures UpdatesAfter(s, n, reflect).prevPos == UpdatesAfter(s, n - 1, reflect).position
    ensures var r := UpdatesAfter(s, n, reflect);
      r.position == r.prevPos || r.position == r.prevPos.Plus(UpdatesAfter(s, n - 1, reflect).velocity)
  {
  }

  /** For a radius within the boundary, the squared test says the ball pokes out of the circle. */
  lemma CollidesIffOutside(p: Vec, r: int, d: real)
    requires 0.0 <= r as real <= BOUNDARY
    requires d >= 0.0 && d * d == DistSq(p)
    ensures Collides(p, r) <==> d + r as real > BOUNDARY
  {
    var c := BOUNDARY - r as real;
    assert Collides(p, r) <==> d * d > c * c;
    if d > c {
      SquareGrows(c, d);
    } else if d < c {
      SquareGrows(d, c);
    }
  }

  /** Squaring is strictly increasing on the non-negative reals. */
  lemma SquareGrows(a: real, b: real)
    requires 0.0 <= a < b
    ensures a * a < b * b
  {
    assert b * b - a * a == (b - a) * (b + a);
    assert (b - a) * (b + a) > 0.0 by {
      assert b - a > 0.0 && b + a > 0.0;
    }
  }

  /**
   * Once the radius exceeds `WIDTH / 2` the squared test no longer says
   * that: every position within `r - WIDTH / 2` of the centre sticks out of
   * the circle, yet does not collide.
   */
  lemma OversizedBallMissesCollision(p: Vec, r: int, d: real)
    requires r as real > BOUNDARY
    requires d >= 0.0 && d * d == DistSq(p) && d <= r as real - BOUNDARY
    ensures d + r as real > BOUNDARY && !Collides(p, r)
  {
    var c := r as real - BOUNDARY;
    assert Sq(BOUNDARY - r as real) == c * c;
    if d < c {
      SquareGrows(d, c);
    }
  }

  class Ball {
    var position: Vec
    var velocity: Vec
    var radius: int
    var gravity: Vec
    var prevPos: Vec

    function State(): BallState
      reads this
    {
      BallState(position, velocity, radius, gravity, prevPos)
    }

    /** `Ball(x, y, radius, color)`; the colour is only drawn and is not modelled. */
    constructor (x: real, y: real, radius: int)
      ensures State() == BallState(Vec(x, y), Vec(INITIAL_VELOCITY, INITIAL_VELOCITY), radius, Vec(0.0, GRAVITY), Vec(x, y))
    {
      position := Vec(x, y);
      this.radius := radius;
      velocity := Vec(INITIAL_VELOCITY, INITIAL_VELOCITY);
      gravity := Vec(0.0, GRAVITY);
      prevPos := Vec(x, y);
    }

    /**
     * `update`. `bounced` says whether the collision branch ran, that is,
     * whether the bounce sound is played.
     */
    method Update(reflect: (Vec, Vec) -> Vec) returns (bounced: bool)
      modifies this
      ensures bounced == Collides(old(position).Plus(old(velocity)), old(radius))
      ensures State() == UpdateState(old(State()), reflect)
    {
      prevPos := position;
      position := position.Plus(velocity);
      velocity := velocity.Plus(gravity);
      bounced := Collides(position, radius);
      if bounced {
        radius := radius + 1;
        position := prevPos;
        velocity := reflect(position, velocity);
      }
    }
  }

  /** The ball `main.py` creates: at the centre with radius `INITIAL_RADIUS`. */
  method CreateBall() returns (b: Ball)
    ensures fresh(b) && b.State() == BallState(CENTER, Vec(INITIAL_VELOCITY, INITIAL_VELOCITY), INITIAL_RADIUS, Vec(0.0, GRAVITY), CENTER)
  {
    b := new Ball(WIDTH / 2.0, HEIGHT / 2.0, INITIAL_RADIUS);
  }

  /** The hue `h` and `color_direction`. */
  datatype Hue = Hue(h: int, dir: int)

  /** Hues the `hsla` setter accepts. */
  predicate AcceptedHue(h: int) {
    0 <= h <= 360
  }

  /** One frame: move by the direction, then turn down at 360 or more and up at 0 or less. */
  function HueStep(s: Hue): Hue {
    var h := s.h + 1 * s.dir;
    Hue(h, if h >= 360 then -1 else if h <= 0 then 1 else s.dir)
  }

  /** The hue state after `n` frames. */
  function HueAfter(s: Hue, n: nat): Hue {
    if n == 0 then s else HueStep(HueAfter(s, n - 1))
  }

  /** The range invariant: an accepted hue, a unit direction, pointing inwards at either end. */
  predicate HueInv(s: Hue) {
    && AcceptedHue(s.h)
    && (s.dir == 1 || s.dir == -1)
    && (s.h == 360 ==> s.dir == -1)
    && (s.h == 0 ==> s.dir == 1)
  }

  /** A frame moves the hue by exactly its direction and keeps the invariant. */
  lemma HueStepKeepsInv(s: Hue)
    requires HueInv(s)
    ensures HueStep(s).h == s.h + s.dir && HueInv(HueStep(s))
    ensures HueStep(s).dir == (if HueStep(s).h >= 360 then -1 else if HueStep(s).h <= 0 then 1 else s.dir)
  {
  }

  /** The invariant holds in every frame from any state that satisfies it. */
  lemma {:induction false} HueInvAfter(s: Hue, n: nat)
    requires HueInv(s)
    ensures HueInv(HueAfter(s, n))
  {
    if n > 0 {
      HueInvAfter(s, n - 1);
      HueStepKeepsInv(HueAfter(s, n - 1));
    }
  }

  /**
   * The reference shape of the hue over time: a triangle wave of period 720,
   * rising from 0 to 360 and falling back.
   */
  function Triangle(p: int): (r: Hue)
    requires 0 <= p < 720
    ensures HueInv(r)
  {
    if p < 360 then Hue(p, 1) else Hue(720 - p, -1)
  }

  /** A frame advances the triangle wave by one phase. */
  lemma TriangleStep(p: int)
    requires 0 <= p < 720
    ensures HueStep(Triangle(p)) == Triangle(if p == 719 then 0 else p + 1)
  {
  }

  /** The phase after one more frame. */
  lemma PhaseStep(a: nat)
    ensures (a + 1) % 720 == if a % 720 == 719 then 0 else a % 720 + 1
  {
    var p := a % 720;
    var q := a / 720;
    if p == 719 {
      PhaseOf(a + 1, q + 1, 0);
    } else {
      PhaseOf(a + 1, q, p + 1);
    }
  }

  /** The phase of `x` is the remainder of any division of `x` into whole periods. */
  lemma PhaseOf(x: int, q: int, r: int)
    requires 0 <= r < 720 && x == 720 * q + r
    ensures x % 720 == r
  {
  }

  /** From a hue below 360 going up, the hue after `n` frames is the triangle wave at `h0 + n`. */
  lemma {:induction false} HueIsTriangle(h0: int, n: nat)
    requires 0 <= h0 < 360
    ensures HueAfter(Hue(h0, 1), n) == Triangle((h0 + n) % 720)
  {
    if n > 0 {
      var a := h0 + n - 1;
      HueIsTriangle(h0, n - 1);
      TriangleStep(a % 720);
      PhaseStep(a);
      assert HueAfter(Hue(h0, 1), n) == HueStep(Triangle(a % 720));
    }
  }

  /** The hue repeats every 720 frames. */
  lemma HuePeriodic(h0: int, n: nat)
    requires 0 <= h0 < 360
    ensures HueAfter(Hue(h0, 1), n + 720) == HueAfter(Hue(h0, 1), n)
  {
    HueIsTriangle(h0, n);
    HueIsTriangle(h0, n + 720);
    PhaseOf(h0 + n + 720, (h0 + n) / 720 + 1, (h0 + n) % 720);
  }

  /**
   * From a hue `h0` below 360 going up, the hue is at 360 exactly in the
   * frames `n` with `h0 + n` at phase 360 of the period, and at 0 exactly
   * in those at phase 0.
   */
  lemma HueExtremes(h0: int, n: nat)
    requires 0 <= h0 < 360
    ensures HueAfter(Hue(h0, 1), n).h == 360 <==> (h0 + n) % 720 == 360
    ensures HueAfter(Hue(h0, 1), n).h == 0 <==> (h0 + n) % 720 == 0
  {
    HueIsTriangle(h0, n);
  }

  /**
   * From a hue `h0` below 360 going up, the hue reaches 360 after `360 - h0`
   * frames and turns down, and reaches 0 after `720 - h0` and turns up.
   */
  lemma HueTurns(h0: int, n: nat)
    requires 0 <= h0 < 360
    ensures h0 + n == 360 ==> HueAfter(Hue(h0, 1), n) == Hue(360, -1)
    ensures h0 + n == 720 ==> HueAfter(Hue(h0, 1), n) == Hue(0, 1)
  {
    HueIsTriangle(h0, n);
    if h0 + n == 720 {
      PhaseOf(h0 + n, 1, 0);
    }
  }

  /** Appending the hue of frame `|written|` to the hues of the frames before. */
  lemma RecordHue(written: seq<int>, start: Hue, h: int)
    requires forall k :: 0 <= k < |written| ==> written[k] == HueAfter(start, k).h
    requires h == HueAfter(start, |written|).h
    ensures forall k :: 0 <= k < |written| + 1 ==> (written + [h])[k] == HueAfter(start, k).h
  {
  }

  /**
   * `frames` passes of the hue part of the main loop, starting upwards from
   * the hue `h0` of the initial colour (300 for `Color(211, 12, 211)`).
   * `written` is the sequence of hues given to the `hsla` setter; `h` and
   * `colorDirection` are the state left afterwards.
   */
  method RunHue(h0: int, frames: nat) returns (written: seq<int>, h: int, colorDirection: int)
    requires 0 <= h0 < 360
    ensures |written| == frames
    ensures forall k :: 0 <= k < frames ==> written[k] == HueAfter(Hue(h0, 1), k).h
    ensures forall k :: 0 <= k < frames ==> AcceptedHue(written[k])
    ensures Hue(h, colorDirection) == HueAfter(Hue(h0, 1), frames)
  {
    h := h0;
    colorDirection := 1;
    ghost var start := Hue(h, colorDirection);
    written := [];
    var i := 0;
    while i < frames
      invariant i <= frames && |written| == i
      invariant Hue(h, colorDirection) == HueAfter(start, i)
      invariant forall k :: 0 <= k < i ==> written[k] == HueAfter(start, k).h
      invariant forall k :: 0 <= k < i ==> AcceptedHue(written[k])
    {
      HueInvAfter(start, i);
      ghost var before := Hue(h, colorDirection);
      RecordHue(written, start, h);
      written := written + [h];
      h := h + 1 * colorDirection;
      if h >= 360 {
        colorDirection := -1;
      } else if h <= 0 {
        colorDirection := 1;
      }
      assert Hue(h, colorDirection) == HueStep(before);
      i := i + 1;
    }
  }
}
