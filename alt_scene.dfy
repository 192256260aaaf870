/**
 * alt.py: balls bounce inside a circle; a ball that touches the moving
 * image is counted, removed, and, while the list is below its cap,
 * replaced by two new balls at the centre. This module models one frame
 * of that bookkeeping. The physics of `Ball.update` and the rectangle
 * overlap test are not modelled: which snapshot balls touch the image is
 * an input, one boolean per ball.
 */
module AltScene {
  import opened Wrappers
  import opened Vectors
  import opened PyList

  const WIDTH: int := 700
  const HEIGHT: int := 700
  const BALL_RADIUS: int := 15
  const INITIAL_VELOCITY: real := 7.0
  const MAX_BALLS: nat := 1000

  /** `center = (WIDTH // 2, HEIGHT // 2)`. */
  const CENTER: Vec := Vec((WIDTH / 2) as real, (HEIGHT / 2) as real)

  /** A velocity `random.uniform(-INITIAL_VELOCITY, INITIAL_VELOCITY)` can draw on each axis. */
  predicate InVelocityRange(v: Vec) {
    -INITIAL_VELOCITY <= v.x <= INITIAL_VELOCITY && -INITIAL_VELOCITY <= v.y <= INITIAL_VELOCITY
  }

  /** Number of collisions among the first `n` snapshot balls. */
  function Count(hits: seq<bool>, n: nat): (k: nat)
    requires n <= |hits|
    ensures k <= n
  {
    if n == 0 then 0 else Count(hits, n - 1) + (if hits[n - 1] then 1 else 0)
  }

  /** The first `n` snapshot balls that did not collide, in their original order. */
  function Survivors<T>(s: seq<T>, hits: seq<bool>, n: nat): (r: seq<T>)
    requires n <= |s| == |hits|
    ensures |r| == n - Count(hits, n)
  {
    if n == 0 then [] else Survivors(s, hits, n - 1) + (if hits[n - 1] then [] else [s[n - 1]])
  }

  /**
   * List size after one collision from `n` balls: the ball is removed and,
   * if fewer than `MAX_BALLS` remain, two are appended.
   */
  function SizeAfterCollision(n: nat): (m: nat)
    requires n >= 1
    ensures m == n + 1 || m == n - 1
    ensures m == n + 1 <==> n <= MAX_BALLS
  {
    if n - 1 < MAX_BALLS then n + 1 else n - 1
  }

  /** List size after `k` collisions one after another, starting from `n` balls. */
  function SizeAfterCollisions(n: nat, k: nat): (m: nat)
    requires n >= 1
    ensures m >= 1
  {
    if k == 0 then n else SizeAfterCollision(SizeAfterCollisions(n, k - 1))
  }

  class Ball {
    var position: Vec
    var velocity: Vec
    var radius: int

    /** `Ball(position, velocity)` with the default radius `BALL_RADIUS`. */
    constructor (position: Vec, velocity: Vec)
      ensures this.position == position && this.velocity == velocity && radius == BALL_RADIUS
    {
      this.position := position;
      this.velocity := velocity;
      radius := BALL_RADIUS;
    }
  }

  /** A ball as `Ball(center, new_velocity)` creates it. */
  ghost predicate Spawned(b: Ball)
    reads b
  {
    b.position == CENTER && InVelocityRange(b.velocity) && b.radius == BALL_RADIUS
  }

  /** The module-level state the main loop updates: `balls` and `collision_counter`. */
  class Scene {
    var balls: seq<Ball>
    var collisionCounter: nat

    /** The list is never empty, never longer than `MAX_BALLS + 1`, and holds each ball once. */
    ghost predicate Valid()
      reads this
    {
      1 <= |balls| <= MAX_BALLS + 1 && Distinct(balls)
    }

    /** The initial state: one ball at the centre moving `(7, -7)`, no collisions. */
    constructor ()
      ensures Valid() && collisionCounter == 0 && |balls| == 1
      ensures fresh(balls[0]) && balls[0].position == CENTER
      ensures balls[0].velocity == Vec(INITIAL_VELOCITY, -INITIAL_VELOCITY) && balls[0].radius == BALL_RADIUS
    {
      var b := new Ball(CENTER, Vec(INITIAL_VELOCITY, -INITIAL_VELOCITY));
      balls := [b];
      collisionCounter := 0;
    }

    /** The `for _ in range(2)` loop: append two new balls at the centre with the drawn velocities. */
    method SpawnTwo(draws: seq<Vec>) returns (ghost born: seq<Ball>)
      requires |draws| == 2 && Distinct(balls)
      modifies this
      ensures balls == old(balls) + born && |born| == 2 && Distinct(balls)
      ensures forall k :: 0 <= k < 2 ==> fresh(born[k])
      ensures forall k :: 0 <= k < 2 ==>
        born[k].position == CENTER && born[k].velocity == draws[k] && born[k].radius == BALL_RADIUS
      ensures collisionCounter == old(collisionCounter)
    {
      born := [];
      for k := 0 to 2
        invariant balls == old(balls) + born && |born| == k && Distinct(balls)
        invariant forall j :: 0 <= j < k ==> fresh(born[j])
        invariant forall j :: 0 <= j < k ==>
          born[j].position == CENTER && born[j].velocity == draws[j] && born[j].radius == BALL_RADIUS
        invariant collisionCounter == old(collisionCounter)
      {
        var newBall := new Ball(CENTER, draws[k]);
        assert newBall !in balls;
        DistinctAppend(balls, newBall);
        balls := balls + [newBall];
        born := born + [newBall];
      }
    }

    /**
     * The body of `if ball.get_rect().colliderect(image_rect)`: count the
     * collision, remove the ball, and append two balls with the velocities
     * in `pair` if fewer than `MAX_BALLS` remain.
     */
    method Collide(ball: Ball, pair: seq<Vec>) returns (ghost born: seq<Ball>)
      requires Distinct(balls) && ball in balls
      requires |pair| == 2 && InVelocityRange(pair[0]) && InVelocityRange(pair[1])
      modifies this
      ensures Distinct(balls)
      ensures collisionCounter == old(collisionCounter) + 1
      ensures Remove(old(balls), ball).Some?
      ensures balls == Remove(old(balls), ball).value + born
      ensures |born| == if |old(balls)| - 1 < MAX_BALLS then 2 else 0
      ensures forall k :: 0 <= k < |born| ==> fresh(born[k]) && Spawned(born[k])
      ensures forall k :: 0 <= k < |born| ==> born[k].velocity == pair[k]
    {
      collisionCounter := collisionCounter + 1;
      var i :| 0 <= i < |balls| && balls[i] == ball;
      RemoveDistinct(balls, i);
      var removed := Remove(balls, ball);
      balls := removed.value;
      born := [];
      if |balls| < MAX_BALLS {
        born := SpawnTwo(pair);
      }
    }

    /**
     * One iteration of `for ball in balls[:]`: snapshot ball `i` collides
     * when `hits[i]` holds, and then spawns with `draws[2 * i]` and
     * `draws[2 * i + 1]`.
     */
    method Visit(snapshot: seq<Ball>, hits: seq<bool>, draws: seq<Vec>, i: nat, ghost spawned: seq<Ball>)
      returns (ghost born: seq<Ball>)
      requires InPass(snapshot, hits, i, balls, spawned) && i < |snapshot|
      requires |draws| == 2 * |snapshot| && forall j :: 0 <= j < |draws| ==> InVelocityRange(draws[j])
      modifies this
      ensures InPass(snapshot, hits, i + 1, balls, spawned + born)
      ensures collisionCounter == old(collisionCounter) + (if hits[i] then 1 else 0)
      ensures forall k :: 0 <= k < |born| ==> fresh(born[k]) && Spawned(born[k])
    {
      var ball := snapshot[i];
      ghost var kept := Survivors(snapshot, hits, i);
      ghost var collisions := Count(hits, i);
      born := [];
      if hits[i] {
        var pair := draws[2 * i..2 * i + 2];
        assert InVelocityRange(pair[0]) && InVelocityRange(pair[1]) by {
          assert pair[0] == draws[2 * i] && pair[1] == draws[2 * i + 1];
        }
        NextIsPresent(snapshot, hits, i, balls, kept, collisions, spawned);
        ghost var before := balls;
        born := Collide(ball, pair);
        AfterCollide(snapshot, hits, i, before, kept, collisions, spawned, balls, born);
      } else {
        AfterMiss(snapshot, hits, i, balls, kept, collisions, spawned);
        assert spawned + born == spawned;
      }
    }

    /**
     * One pass of `for ball in balls[:]`. `hits[i]` says whether snapshot
     * ball `i` overlaps the image after its update; `draws[2 * i]` and
     * `draws[2 * i + 1]` are the two velocities `random.uniform` yields if
     * ball `i` spawns. The balls spawned during the pass are returned
     * (ghost) so that the new list can be stated.
     */
    method Frame(hits: seq<bool>, draws: seq<Vec>) returns (ghost spawned: seq<Ball>)
      requires Valid()
      requires |hits| == |balls| && |draws| == 2 * |balls|
      requires forall i :: 0 <= i < |draws| ==> InVelocityRange(draws[i])
      modifies this
      ensures Valid()
      ensures collisionCounter == old(collisionCounter) + Count(hits, |hits|)
      ensures balls == Survivors(old(balls), hits, |hits|) + spawned
      ensures |balls| == SizeAfterCollisions(old(|balls|), Count(hits, |hits|))
      ensures forall k :: 0 <= k < |spawned| ==> fresh(spawned[k]) && Spawned(spawned[k])
    {
      var snapshot := balls;
      spawned := [];
      var i := 0;
      while i < |snapshot|
        invariant InPass(snapshot, hits, i, balls, spawned)
        invariant collisionCounter == old(collisionCounter) + Count(hits, i)
        invariant forall k :: 0 <= k < |spawned| ==> fresh(spawned[k]) && Spawned(spawned[k])
      {
        ghost var born := Visit(snapshot, hits, draws, i, spawned);
        AppendSpawned(spawned, born);
        spawned := spawned + born;
        i := i + 1;
      }
      PassDone(snapshot, hits, balls, Survivors(snapshot, hits, |snapshot|), Count(hits, |snapshot|), spawned);
    }
  }

  /** The state of the pass before snapshot ball `i`, with the survivors and collisions computed. */
  ghost predicate InPass<T>(snapshot: seq<T>, hits: seq<bool>, i: nat, live: seq<T>, spawned: seq<T>) {
    i <= |snapshot| == |hits| && PassState(snapshot, hits, i, live, Survivors(snapshot, hits, i), Count(hits, i), spawned)
  }

  /**
   * The state of the pass before snapshot ball `i`: `live` holds the
   * survivors among the first `i`, the unvisited snapshot balls and the
   * balls spawned so far, in that order, each once; `kept` and
   * `collisions` name the survivors and the collisions so far.
   */
  ghost predicate PassState<T>(snapshot: seq<T>, hits: seq<bool>, i: nat, live: seq<T>, kept: seq<T>,
                               collisions: nat, spawned: seq<T>)
  {
    && i <= |snapshot| == |hits|
    && kept == Survivors(snapshot, hits, i)
    && live == kept + (snapshot[i..] + spawned)
    && Distinct(live)
    && collisions == Count(hits, i)
    && 1 <= |snapshot|
    && |live| == SizeAfterCollisions(|snapshot|, collisions)
  }

  /** The ball being visited is still in the list, right after the survivors. */
  lemma NextIsPresent<T>(snapshot: seq<T>, hits: seq<bool>, i: nat, live: seq<T>, kept: seq<T>,
                         collisions: nat, spawned: seq<T>)
    requires PassState(snapshot, hits, i, live, kept, collisions, spawned) && i < |snapshot|
    ensures Distinct(live) && snapshot[i] in live
    ensures Remove(live, snapshot[i]) == Some(kept + (snapshot[i + 1..] + spawned))
  {
    assert snapshot[i..] == [snapshot[i]] + snapshot[i + 1..];
    assert live == kept + ([snapshot[i]] + (snapshot[i + 1..] + spawned));
    RemoveFromLayout(kept, snapshot[i], snapshot[i + 1..] + spawned);
  }

  /** A collision of ball `i` moves the pass on, the new balls joining the spawned ones. */
  lemma AfterCollide<T>(snapshot: seq<T>, hits: seq<bool>, i: nat, live: seq<T>, kept: seq<T>,
                        collisions: nat, spawned: seq<T>, live': seq<T>, born: seq<T>)
    requires PassState(snapshot, hits, i, live, kept, collisions, spawned) && i < |snapshot| && hits[i]
    requires live' == kept + (snapshot[i + 1..] + spawned) + born && Distinct(live')
    requires |born| == if |live| - 1 < MAX_BALLS then 2 else 0
    ensures PassState(snapshot, hits, i + 1, live', kept, collisions + 1, spawned + born)
  {
    CollisionStep(snapshot, hits, i);
    assert |snapshot[i..]| == 1 + |snapshot[i + 1..]|;
    assert live' == kept + (snapshot[i + 1..] + (spawned + born));
  }

  /** A collision of ball `i` adds one collision and no survivor. */
  lemma CollisionStep<T>(snapshot: seq<T>, hits: seq<bool>, i: nat)
    requires i < |snapshot| == |hits| && hits[i]
    ensures Survivors(snapshot, hits, i + 1) == Survivors(snapshot, hits, i)
    ensures Count(hits, i + 1) == Count(hits, i) + 1
  {
  }

  /** A ball that does not collide joins the survivors. */
  lemma AfterMiss<T>(snapshot: seq<T>, hits: seq<bool>, i: nat, live: seq<T>, kept: seq<T>,
                     collisions: nat, spawned: seq<T>)
    requires PassState(snapshot, hits, i, live, kept, collisions, spawned) && i < |snapshot| && !hits[i]
    ensures PassState(snapshot, hits, i + 1, live, kept + [snapshot[i]], collisions, spawned)
  {
    assert snapshot[i..] == [snapshot[i]] + snapshot[i + 1..];
    assert kept + ([snapshot[i]] + (snapshot[i + 1..] + spawned)) == (kept + [snapshot[i]]) + (snapshot[i + 1..] + spawned);
  }

  /** At the end of the pass the list is the survivors followed by the spawned balls, within bounds. */
  lemma PassDone<T>(snapshot: seq<T>, hits: seq<bool>, live: seq<T>, kept: seq<T>,
                    collisions: nat, spawned: seq<T>)
    requires PassState(snapshot, hits, |snapshot|, live, kept, collisions, spawned)
    requires |snapshot| <= MAX_BALLS + 1
    ensures live == Survivors(snapshot, hits, |hits|) + spawned
    ensures collisions == Count(hits, |hits|)
    ensures 1 <= |live| <= MAX_BALLS + 1 && Distinct(live)
  {
    assert snapshot[|snapshot|..] + spawned == spawned;
    GrowthBounded(|snapshot|, collisions);
  }

  /** Balls spawned during the frame, followed by more spawned during the frame, were all spawned during it. */
  twostate lemma AppendSpawned(new s: seq<Ball>, new t: seq<Ball>)
    requires forall k :: 0 <= k < |s| ==> fresh(s[k]) && Spawned(s[k])
    requires forall k :: 0 <= k < |t| ==> fresh(t[k]) && Spawned(t[k])
    ensures forall k :: 0 <= k < |s + t| ==> fresh((s + t)[k]) && Spawned((s + t)[k])
  {
    forall k | 0 <= k < |s + t| ensures fresh((s + t)[k]) && Spawned((s + t)[k]) {
      if k >= |s| { assert (s + t)[k] == t[k - |s|]; }
    }
  }

  /** Removing the ball that sits between the survivors so far and the rest of the list. */
  lemma RemoveFromLayout<T>(kept: seq<T>, x: T, rest: seq<T>)
    requires Distinct(kept + ([x] + rest))
    ensures Remove(kept + ([x] + rest), x) == Some(kept + rest)
    ensures Distinct(kept + rest)
  {
    var s := kept + ([x] + rest);
    assert s[|kept|] == x;
    assert s[..|kept|] == kept && s[|kept| + 1..] == rest;
    RemoveDistinct(s, |kept|);
  }

  /** From any size the invariant allows, any number of collisions keeps the size within it. */
  lemma {:induction false} GrowthBounded(n: nat, k: nat)
    requires 1 <= n <= MAX_BALLS + 1
    ensures 1 <= SizeAfterCollisions(n, k) <= MAX_BALLS + 1
  {
    if k > 0 {
      GrowthBounded(n, k - 1);
    }
  }

  /**
   * The list size after `k` collisions in a row, in closed form: it grows by
   * one per collision up to `MAX_BALLS + 1`, and from there alternates
   * between `MAX_BALLS` and `MAX_BALLS + 1`.
   */
  lemma {:induction false} SizeAfterCollisionsClosedForm(n: nat, k: nat)
    requires 1 <= n <= MAX_BALLS + 1
    ensures SizeAfterCollisions(n, k) ==
      if n + k <= MAX_BALLS + 1 then n + k
      else if (n + k - (MAX_BALLS + 1)) % 2 == 0 then MAX_BALLS + 1
      else MAX_BALLS
  {
    if k > 0 {
      SizeAfterCollisionsClosedForm(n, k - 1);
    }
  }

  /**
   * After a pass over a list without repetitions, a ball that was in the
   * list is still there exactly when it did not collide, and every survivor
   * comes from the list.
   */
  lemma {:induction false} SurvivorsMembership<T>(s: seq<T>, hits: seq<bool>, n: nat)
    requires n <= |s| == |hits| && Distinct(s)
    ensures forall i :: 0 <= i < n ==> (s[i] in Survivors(s, hits, n) <==> !hits[i])
    ensures forall x :: x in Survivors(s, hits, n) ==> x in s[..n]
  {
    if n > 0 {
      SurvivorsMembership(s, hits, n - 1);
      DistinctIndices(s);
      var r := Survivors(s, hits, n - 1);
      forall x | x in Survivors(s, hits, n) ensures x in s[..n] {
        if x in r {
          assert x in s[..n - 1];
          var j :| 0 <= j < n - 1 && s[..n - 1][j] == x;
          assert s[..n][j] == x;
        } else {
          assert s[..n][n - 1] == x;
        }
      }
    }
  }
}
